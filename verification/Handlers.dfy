/** The RPC handlers. A writing handler has two critical sections: it checks the registration, then
    it puts. `Admit` and `Effect` are these sections; the class runs them back to back. */
module Handlers {
  import opened ByteStrings
  import opened Wrappers
  import opened OpStoreProto
  import opened HashUtils
  import opened OpHeads
  import opened Trees
  import opened MemoryStores

  /** The hash functions, uninterpreted; a tree is hashed by its filtered and sorted list. */
  datatype Hasher = Hasher(blob: BlobHash, tree: seq<GitEntry> -> Digest, commit: Commit -> Digest)

  /** How the server names objects. Everything about interleavings holds for any naming. */
  datatype Ids = Ids(
    file: Bytes -> Bytes,
    tree: seq<TreeEntry> -> Bytes,
    operation: Operation -> Bytes,
    view: View -> Bytes,
    commit: Commit -> Bytes)

  /** The naming in use: content hashes of the canonical buffers and lists. */
  function HashIds(h: Hasher): Ids {
    Ids(content => h.blob(content),
        entries => h.tree(TreeList(entries)),
        op => OperationId(h.blob, op),
        v => ViewId(h.blob, v),
        c => h.commit(c))
  }

  datatype Request =
    | WriteCommit(repo: RepoId, commit: Option<Commit>)
    | WriteTree(repo: RepoId, entries: seq<TreeEntry>)
    | WriteFile(repo: RepoId, content: Bytes)
    | WriteOperation(repo: RepoId, operation: Option<Operation>)
    | WriteView(repo: RepoId, view: Option<View>)
    | UpdateOpHeads(repo: RepoId, update: Update)

  datatype Reply =
    | Written(id: Bytes)
    | Heads(ids: seq<Bytes>)
    | NotRegistered
    | InvalidArgument

  predicate HasBody(r: Request) {
    match r
    case WriteCommit(_, c) => c.Some?
    case WriteOperation(_, op) => op.Some?
    case WriteView(_, v) => v.Some?
    case _ => true
  }

  /** The first critical section: None lets the request through. An operation or view without a
      body is refused before the registration is looked at, a commit without one after. */
  function Admit(s: StoreState, r: Request): (e: Option<Reply>)
    ensures e.None? <==> r.repo in s.repos && HasBody(r)
    ensures e == Some(NotRegistered) <==> r.repo !in s.repos && (HasBody(r) || r.WriteCommit?)
    ensures e == Some(InvalidArgument) <==> !HasBody(r) && (r.repo in s.repos || !r.WriteCommit?)
  {
    if (r.WriteOperation? || r.WriteView?) && !HasBody(r) then Some(InvalidArgument)
    else if r.repo !in s.repos then Some(NotRegistered)
    else if !HasBody(r) then Some(InvalidArgument)
    else None
  }

  /** A commit is stored under the id it came with, or under its hash, and carries that id. */
  function IdentifiedCommit(ids: Ids, c: Commit): Commit {
    c.(commitId := if c.commitId == [] then ids.commit(c) else c.commitId)
  }

  /** The second critical section. */
  function Effect(ids: Ids, s: StoreState, r: Request): (StoreState, Reply)
    requires HasBody(r)
  {
    match r
    case WriteCommit(repo, Some(c)) =>
      var commit := IdentifiedCommit(ids, c);
      (s.(commits := Put(s.commits, repo, commit.commitId, commit)), Written(commit.commitId))
    case WriteTree(repo, entries) =>
      (s.(trees := Put(s.trees, repo, ids.tree(entries), entries)), Written(ids.tree(entries)))
    case WriteFile(repo, content) =>
      (s.(files := Put(s.files, repo, ids.file(content), content)), Written(ids.file(content)))
    case WriteOperation(repo, Some(op)) =>
      (s.(ops := Put(s.ops, repo, ids.operation(op), op)), Written(ids.operation(op)))
    case WriteView(repo, Some(v)) =>
      (s.(views := Put(s.views, repo, ids.view(v), v)), Written(ids.view(v)))
    case UpdateOpHeads(repo, u) =>
      var after := WithUpdatedHeads(s, repo, u);
      (after, Heads(CurrentHeads(after, repo)))
  }

  ghost predicate Handled(ids: Ids, before: StoreState, r: Request, after: StoreState, reply: Reply) {
    match Admit(before, r)
    case Some(refusal) => after == before && reply == refusal
    case None => (after, reply) == Effect(ids, before, r)
  }

  // ---------- Reads: the registration is checked in one state, the object fetched in a later one ----------

  datatype ReadResult<+T> = Found(value: T) | Missing | Unregistered

  function Fetched<T>(o: Option<T>): ReadResult<T> {
    match o
    case Some(v) => Found(v)
    case None => Missing
  }

  function ReadCommit(guard: StoreState, s: StoreState, repo: RepoId, id: Bytes): ReadResult<Commit> {
    if repo !in guard.repos then Unregistered else Fetched(Get(s.commits, repo, id))
  }

  function ReadTree(guard: StoreState, s: StoreState, repo: RepoId, id: Bytes): ReadResult<seq<TreeEntry>> {
    if repo !in guard.repos then Unregistered
    else if id == EMPTY_TREE_ID then Found([])
    else Fetched(Get(s.trees, repo, id))
  }

  function ReadFile(guard: StoreState, s: StoreState, repo: RepoId, id: Bytes): ReadResult<Bytes> {
    if repo !in guard.repos then Unregistered else Fetched(Get(s.files, repo, id))
  }

  /** A stored operation wins over the built-in root. */
  function ReadOperation(guard: StoreState, s: StoreState, repo: RepoId, id: Bytes): ReadResult<Operation> {
    if repo !in guard.repos then Unregistered
    else if Get(s.ops, repo, id).Some? then Found(Get(s.ops, repo, id).value)
    else if id == ROOT_OPERATION_ID then Found(ROOT_OPERATION)
    else Missing
  }

  function ReadView(guard: StoreState, s: StoreState, repo: RepoId, id: Bytes): ReadResult<View> {
    if repo !in guard.repos then Unregistered
    else if Get(s.views, repo, id).Some? then Found(Get(s.views, repo, id).value)
    else if id == ROOT_VIEW_ID then Found(ROOT_VIEW)
    else Missing
  }

  function ReadOpHeads(guard: StoreState, s: StoreState, repo: RepoId): ReadResult<seq<Bytes>> {
    if repo !in guard.repos then Unregistered else Found(CurrentHeads(s, repo))
  }

  // ---------- The handlers, uninterrupted ----------

  class Server {
    const store: MemoryStore
    const hasher: Hasher

    constructor (store: MemoryStore, hasher: Hasher)
      ensures this.store == store && this.hasher == hasher
    {
      this.store := store;
      this.hasher := hasher;
    }

    method HandleWriteCommit(repo: RepoId, request: Option<Commit>) returns (r: Reply)
      modifies store
      ensures Handled(HashIds(hasher), old(store.State()), WriteCommit(repo, request), store.State(), r)
    {
      var registered := store.IsRepoRegistered(repo);
      if !registered { return NotRegistered; }
      if request.None? { return InvalidArgument; }
      var commit := request.value;
      var id := if commit.commitId == [] then hasher.commit(commit) else commit.commitId;
      commit := commit.(commitId := id);
      store.PutCommit(repo, id, commit);
      r := Written(id);
    }

    method HandleWriteTree(repo: RepoId, entries: seq<TreeEntry>) returns (r: Reply)
      modifies store
      ensures Handled(HashIds(hasher), old(store.State()), WriteTree(repo, entries), store.State(), r)
    {
      var registered := store.IsRepoRegistered(repo);
      if !registered { return NotRegistered; }
      var list := ComputeTreeList(entries);
      var id := hasher.tree(list);
      store.PutTree(repo, id, entries);
      r := Written(id);
    }

    method HandleWriteFile(repo: RepoId, content: Bytes) returns (r: Reply)
      modifies store
      ensures Handled(HashIds(hasher), old(store.State()), WriteFile(repo, content), store.State(), r)
    {
      var registered := store.IsRepoRegistered(repo);
      if !registered { return NotRegistered; }
      var id := hasher.blob(content);
      store.PutFile(repo, id, content);
      r := Written(id);
    }

    method HandleWriteOperation(repo: RepoId, request: Option<Operation>) returns (r: Reply)
      modifies store
      ensures Handled(HashIds(hasher), old(store.State()), WriteOperation(repo, request), store.State(), r)
    {
      if request.None? { return InvalidArgument; }
      var registered := store.IsRepoRegistered(repo);
      if !registered { return NotRegistered; }
      var id := HashOperation(hasher.blob, request.value);
      store.PutOperation(repo, id, request.value);
      r := Written(id);
    }

    method HandleWriteView(repo: RepoId, request: Option<View>) returns (r: Reply)
      modifies store
      ensures Handled(HashIds(hasher), old(store.State()), WriteView(repo, request), store.State(), r)
    {
      if request.None? { return InvalidArgument; }
      var registered := store.IsRepoRegistered(repo);
      if !registered { return NotRegistered; }
      var id := HashView(hasher.blob, request.value);
      store.PutView(repo, id, request.value);
      r := Written(id);
    }

    method HandleUpdateOpHeads(repo: RepoId, oldIds: seq<Bytes>, newId: Bytes) returns (r: Reply)
      modifies store
      ensures Handled(HashIds(hasher), old(store.State()), UpdateOpHeads(repo, Update(oldIds, newId)), store.State(), r)
    {
      var registered := store.IsRepoRegistered(repo);
      if !registered { return NotRegistered; }
      var heads := store.UpdateOpHeads(repo, oldIds, newId);
      r := Heads(heads);
    }

    /** `repo` is the id drawn for the new repository. */
    method HandleRegisterRepository(repo: RepoId) returns (r: RepoId)
      modifies store
      ensures r == repo && store.State() == old(store.State()).(repos := old(store.State()).repos + {repo})
    {
      store.RegisterRepo(repo);
      r := repo;
    }

    method HandleReadCommit(repo: RepoId, id: Bytes) returns (r: ReadResult<Commit>)
      ensures r == ReadCommit(store.State(), store.State(), repo, id)
    {
      var registered := store.IsRepoRegistered(repo);
      if !registered { return Unregistered; }
      var commit := store.GetCommit(repo, id);
      r := if commit.Some? then Found(commit.value) else Missing;
    }

    method HandleReadFile(repo: RepoId, id: Bytes) returns (r: ReadResult<Bytes>)
      ensures r == ReadFile(store.State(), store.State(), repo, id)
    {
      var registered := store.IsRepoRegistered(repo);
      if !registered { return Unregistered; }
      var content := store.GetFile(repo, id);
      r := if content.Some? then Found(content.value) else Missing;
    }

    method HandleReadTree(repo: RepoId, id: Bytes) returns (r: ReadResult<seq<TreeEntry>>)
      ensures r == ReadTree(store.State(), store.State(), repo, id)
    {
      var registered := store.IsRepoRegistered(repo);
      if !registered { return Unregistered; }
      if id == EMPTY_TREE_ID { return Found([]); }
      var entries := store.GetTree(repo, id);
      r := if entries.Some? then Found(entries.value) else Missing;
    }

    method HandleReadOperation(repo: RepoId, id: Bytes) returns (r: ReadResult<Operation>)
      ensures r == ReadOperation(store.State(), store.State(), repo, id)
    {
      var registered := store.IsRepoRegistered(repo);
      if !registered { return Unregistered; }
      var op := store.GetOperation(repo, id);
      if op.Some? { return Found(op.value); }
      if id == ROOT_OPERATION_ID { return Found(ROOT_OPERATION); }
      r := Missing;
    }

    method HandleReadView(repo: RepoId, id: Bytes) returns (r: ReadResult<View>)
      ensures r == ReadView(store.State(), store.State(), repo, id)
    {
      var registered := store.IsRepoRegistered(repo);
      if !registered { return Unregistered; }
      var view := store.GetView(repo, id);
      if view.Some? { return Found(view.value); }
      if id == ROOT_VIEW_ID { return Found(ROOT_VIEW); }
      r := Missing;
    }

    method HandleGetOpHeads(repo: RepoId) returns (r: ReadResult<seq<Bytes>>)
      ensures r == ReadOpHeads(store.State(), store.State(), repo)
    {
      var registered := store.IsRepoRegistered(repo);
      if !registered { return Unregistered; }
      var heads := store.GetOpHeads(repo);
      r := Found(if heads.Some? then heads.value else [ROOT_OPERATION_ID]);
    }
  }
}
