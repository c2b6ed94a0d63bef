/** From one client through the server to another: what is written, whatever else happens in between,
    is what is read, and writing it back names it the same. */
module EndToEnd {
  import opened ByteStrings
  import opened Wrappers
  import opened Sorting
  import opened Frames
  import opened OpStoreProto
  import opened HashUtils
  import opened ViewHash
  import opened OperationHash
  import opened JjTypes
  import opened ClientOpStore
  import opened ViewStability
  import opened ClientOperations
  import opened Trees
  import opened MemoryStores
  import opened Handlers
  import opened Interleaving

  // ---------- The only assumption about hashing: no collision among what the run sends ----------

  predicate FilesCollide(h: Hasher, c: Bytes, d: Bytes) {
    c != d && h.blob(c) == h.blob(d)
  }

  /** Different buffers whose digests agree in the first 16 of their 20 bytes. */
  predicate BuffersCollide(h: Hasher, c: Bytes, d: Bytes) {
    c != d && h.blob(c)[..16] == h.blob(d)[..16]
  }

  predicate OperationsCollide(h: Hasher, p: Operation, q: Operation) {
    BuffersCollide(h, OperationPreimage(p), OperationPreimage(q))
  }

  predicate ViewsCollide(h: Hasher, p: View, q: View) {
    BuffersCollide(h, ViewPreimage(p), ViewPreimage(q))
  }

  ghost predicate NoFileCollision(h: Hasher, es: seq<Event>, repo: RepoId) {
    forall c, d :: Requested(es, |es|, WriteFile(repo, c)) && Requested(es, |es|, WriteFile(repo, d)) ==>
      !FilesCollide(h, c, d)
  }

  ghost predicate NoOperationCollision(h: Hasher, es: seq<Event>, repo: RepoId) {
    forall p, q ::
      Requested(es, |es|, WriteOperation(repo, Some(p))) && Requested(es, |es|, WriteOperation(repo, Some(q))) ==>
      !OperationsCollide(h, p, q)
  }

  ghost predicate NoViewCollision(h: Hasher, es: seq<Event>, repo: RepoId) {
    forall p, q :: Requested(es, |es|, WriteView(repo, Some(p))) && Requested(es, |es|, WriteView(repo, Some(q))) ==>
      !ViewsCollide(h, p, q)
  }

  /** No two tree lists sent have one hash, and only the empty one has the empty tree's. */
  ghost predicate NoTreeCollision(h: Hasher, es: seq<Event>, repo: RepoId) {
    && (forall a, b :: Requested(es, |es|, WriteTree(repo, a)) && Requested(es, |es|, WriteTree(repo, b)) ==>
          !TreesCollide(h, TreeList(a), TreeList(b)))
    && (forall a :: Requested(es, |es|, WriteTree(repo, a)) && h.tree(TreeList(a)) == EMPTY_TREE_ID ==>
          TreeList(a) == [])
  }

  predicate TreesCollide(h: Hasher, a: seq<GitEntry>, b: seq<GitEntry>) {
    a != b && h.tree(a) == h.tree(b)
  }

  /** The reply to a write, and the two moments of a later read. */
  ghost predicate WrittenThenRead(ids: Ids, es: seq<Event>, run: seq<Sys>, m: nat, i: nat, j: nat, t: TaskId,
                                  r: Request, id: Bytes) {
    m <= i <= j <= |es| && IsRun(ids, es, run) && Answered(run, m, t, r, id)
  }

  lemma WriteWasRequested(ids: Ids, es: seq<Event>, run: seq<Sys>, m: nat, i: nat, j: nat, t: TaskId,
                          r: Request, id: Bytes)
    requires WrittenThenRead(ids, es, run, m, i, j, t, r, id)
    ensures Requested(es, |es|, r)
  {
    AnsweredWasRequested(ids, es, run, m, t);
    RequestedLater(es, m, |es|);
  }

  // ---------- Ids ----------

  /** The id that an answered write returns, in terms of what was sent. */
  ghost predicate NamedByHash(h: Hasher, r: Request, id: Bytes) {
    match r
    case WriteFile(_, content) => id == h.blob(content)
    case WriteTree(_, entries) => id == h.tree(TreeList(entries))
    case WriteCommit(_, Some(c)) => id == if c.commitId == [] then h.commit(c) else c.commitId
    case WriteOperation(_, Some(op)) => id == h.blob(OperationPreimage(op))[..16]
    case WriteView(_, Some(v)) => id == h.blob(ViewPreimage(v))[..16]
    case _ => false
  }

  lemma AnsweredIdIsHash(h: Hasher, es: seq<Event>, run: seq<Sys>, m: nat, t: TaskId, r: Request, id: Bytes)
    requires m <= |es| && IsRun(HashIds(h), es, run) && Answered(run, m, t, r, id)
    ensures NamedByHash(h, r, id)
  {
    AnsweredIsStored(HashIds(h), es, run, m, m, t, r, id);
  }

  /** A commit reads back with the hash of the one written, when clients send no ids of their own. */
  lemma CommitReadsBack(h: Hasher, es: seq<Event>, run: seq<Sys>, m: nat, i: nat, j: nat, t: TaskId,
                        repo: RepoId, c: Commit, id: Bytes)
    requires WrittenThenRead(HashIds(h), es, run, m, i, j, t, WriteCommit(repo, Some(c)), id)
    requires CommitsUnnamed(es, repo)
    ensures var r := ReadCommit(run[i].store, run[j].store, repo, id);
      r.Found? && h.commit(r.value.(commitId := [])) == id == h.commit(c)
  {
    CommitReadAfterWrite(HashIds(h), es, run, m, i, j, t, repo, Some(c), id);
  }

  // ---------- Files ----------

  /** A file reads back byte for byte. */
  lemma FileReadsBack(h: Hasher, es: seq<Event>, run: seq<Sys>, m: nat, i: nat, j: nat, t: TaskId,
                      repo: RepoId, content: Bytes, id: Bytes)
    requires WrittenThenRead(HashIds(h), es, run, m, i, j, t, WriteFile(repo, content), id)
    requires NoFileCollision(h, es, repo)
    ensures ReadFile(run[i].store, run[j].store, repo, id) == Found(content)
  {
    WriteWasRequested(HashIds(h), es, run, m, i, j, t, WriteFile(repo, content), id);
    FileReadAfterWrite(HashIds(h), es, run, m, i, j, t, repo, content, id);
    StoredWasRequested(HashIds(h), es, run, j);
    RequestedLater(es, j, |es|);
    var r := ReadFile(run[i].store, run[j].store, repo, id);
    assert Requested(es, |es|, WriteFile(repo, r.value));
    assert !FilesCollide(h, r.value, content);
  }

  // ---------- Operations ----------

  /** The operation read was sent by some client and has the buffer of the one written. */
  lemma OperationReadsSameBuffer(h: Hasher, es: seq<Event>, run: seq<Sys>, m: nat, i: nat, j: nat, t: TaskId,
                                 repo: RepoId, p: Operation, id: Bytes)
    requires WrittenThenRead(HashIds(h), es, run, m, i, j, t, WriteOperation(repo, Some(p)), id)
    requires NoOperationCollision(h, es, repo)
    ensures var r := ReadOperation(run[i].store, run[j].store, repo, id);
      r.Found? && OperationPreimage(r.value) == OperationPreimage(p) && id <= h.blob(OperationPreimage(p))
      && Requested(es, |es|, WriteOperation(repo, Some(r.value))) && Requested(es, |es|, WriteOperation(repo, Some(p)))
  {
    WriteWasRequested(HashIds(h), es, run, m, i, j, t, WriteOperation(repo, Some(p)), id);
    OperationReadAfterWrite(HashIds(h), es, run, m, i, j, t, repo, p, id);
    StoredWasRequested(HashIds(h), es, run, j);
    RequestedLater(es, j, |es|);
    var r := ReadOperation(run[i].store, run[j].store, repo, id);
    assert Requested(es, |es|, WriteOperation(repo, Some(r.value)));
    assert !OperationsCollide(h, r.value, p);
  }

  /** Every operation sent with the buffer of `p` is of the form that jj clients send. */
  ghost predicate SharersReadable(es: seq<Event>, repo: RepoId, p: Operation) {
    forall q :: Requested(es, |es|, WriteOperation(repo, Some(q))) && OperationPreimage(q) == OperationPreimage(p) ==>
      Readable(q)
  }

  /** An operation, with or without predecessors, reads back with every field up to its snapshot
      flag, and with the same list of workspace name, attributes and predecessors flattened. */
  lemma OperationReadsHead(h: Hasher, es: seq<Event>, run: seq<Sys>, m: nat, i: nat, j: nat, t: TaskId,
                           repo: RepoId, p: Operation, id: Bytes)
    requires WrittenThenRead(HashIds(h), es, run, m, i, j, t, WriteOperation(repo, Some(p)), id)
    requires NoOperationCollision(h, es, repo) && SharersReadable(es, repo, p)
    ensures var r := ReadOperation(run[i].store, run[j].store, repo, id);
      r.Found? && SameHead(r.value, p) && TailFrames(r.value) == TailFrames(p)
  {
    OperationReadsSameBuffer(h, es, run, m, i, j, t, repo, p, id);
    var q := ReadOperation(run[i].store, run[j].store, repo, id).value;
    ReadableSeparable(q, p);
    OperationBufferDetermines(q, p);
  }

  /** The client makes of `q` the operation `op` without its time zones; when only the unhashed flag
      differs, absent and empty predecessors are confused and nothing else. */
  ghost predicate ReadsAs(q: Operation, op: JjOperation) {
    && OperationFromProto(q).(commitPredecessors := op.commitPredecessors) == WithoutTimeZones(op)
    && (q.commitPredecessorsSet == op.commitPredecessors.Some? ==> OperationFromProto(q) == WithoutTimeZones(op))
  }

  lemma SameButSetReadsAs(q: Operation, op: JjOperation)
    requires SameButSet(q, OperationToProto(op))
    ensures ReadsAs(q, op)
  {
    OperationRoundTrip(op);
  }

  /** A client's operation, predecessors included, reads back as itself without its time zones when
      the operation found has the shape of the one written. */
  lemma OperationReadsBack(h: Hasher, es: seq<Event>, run: seq<Sys>, m: nat, i: nat, j: nat, t: TaskId,
                           repo: RepoId, op: JjOperation, id: Bytes)
    requires WrittenThenRead(HashIds(h), es, run, m, i, j, t, WriteOperation(repo, Some(OperationToProto(op))), id)
    requires NoOperationCollision(h, es, repo)
    ensures var r, p := ReadOperation(run[i].store, run[j].store, repo, id), OperationToProto(op);
      r.Found? && (AllFit(OperationTokens(r.value)) && AllFit(OperationTokens(p)) && OperationShape(r.value, p) ==>
        ReadsAs(r.value, op))
  {
    var p := OperationToProto(op);
    OperationReadsSameBuffer(h, es, run, m, i, j, t, repo, p, id);
    var q := ReadOperation(run[i].store, run[j].store, repo, id).value;
    if AllFit(OperationTokens(q)) && AllFit(OperationTokens(p)) && OperationShape(q, p) {
      OperationPreimageCharacterised(q, p);
      SameButSetReadsAs(q, op);
    }
  }

  /** Without predecessors the shape need not be known; only operations with the very same buffer matter. */
  lemma PlainOperationReadsBack(h: Hasher, es: seq<Event>, run: seq<Sys>, m: nat, i: nat, j: nat, t: TaskId,
                                repo: RepoId, op: JjOperation, id: Bytes)
    requires WrittenThenRead(HashIds(h), es, run, m, i, j, t, WriteOperation(repo, Some(OperationToProto(op))), id)
    requires NoOperationCollision(h, es, repo) && SharersReadable(es, repo, OperationToProto(op))
    ensures var r := ReadOperation(run[i].store, run[j].store, repo, id);
      r.Found? && (r.value.commitPredecessors == [] == OperationToProto(op).commitPredecessors ==>
        ReadsAs(r.value, op) && OperationFromProto(r.value).commitPredecessors in {None, Some(map[])})
  {
    var p := OperationToProto(op);
    OperationReadsSameBuffer(h, es, run, m, i, j, t, repo, p, id);
    var q := ReadOperation(run[i].store, run[j].store, repo, id).value;
    if q.commitPredecessors == [] == p.commitPredecessors {
      ReadableSeparable(q, p);
      OperationPreimageDecodes(q, p);
      SameButSetReadsAs(q, op);
      assert PredecessorEntries(q.commitPredecessors) == [];
    }
  }

  ghost predicate ClientOperation(p: Operation) {
    exists op :: p == OperationToProto(op)
  }

  /** When clients wrote all operations of the repository, whoever reads a written id and writes the
      operation back gets the same id, with no assumption about collisions or decodability. */
  lemma OperationWriteBackKeepsId(h: Hasher, es: seq<Event>, run: seq<Sys>, m: nat, i: nat, j: nat, t: TaskId,
                                  repo: RepoId, p: Operation, id: Bytes)
    requires WrittenThenRead(HashIds(h), es, run, m, i, j, t, WriteOperation(repo, Some(p)), id)
    requires forall q :: Requested(es, |es|, WriteOperation(repo, Some(q))) ==> ClientOperation(q)
    ensures var r := ReadOperation(run[i].store, run[j].store, repo, id);
      r.Found? && h.blob(OperationPreimage(OperationToProto(OperationFromProto(r.value))))[..16] == id
  {
    OperationReadAfterWrite(HashIds(h), es, run, m, i, j, t, repo, p, id);
    StoredWasRequested(HashIds(h), es, run, j);
    RequestedLater(es, j, |es|);
    var q := ReadOperation(run[i].store, run[j].store, repo, id).value;
    assert Requested(es, |es|, WriteOperation(repo, Some(q)));
    var op :| q == OperationToProto(op);
    OperationIdStable(h.blob, op);
  }

  // ---------- Views ----------

  lemma ViewReadsSameBuffer(h: Hasher, es: seq<Event>, run: seq<Sys>, m: nat, i: nat, j: nat, t: TaskId,
                            repo: RepoId, p: View, id: Bytes)
    requires WrittenThenRead(HashIds(h), es, run, m, i, j, t, WriteView(repo, Some(p)), id)
    requires NoViewCollision(h, es, repo)
    ensures var r := ReadView(run[i].store, run[j].store, repo, id);
      r.Found? && ViewPreimage(r.value) == ViewPreimage(p) && id <= h.blob(ViewPreimage(p))
  {
    WriteWasRequested(HashIds(h), es, run, m, i, j, t, WriteView(repo, Some(p)), id);
    ViewReadAfterWrite(HashIds(h), es, run, m, i, j, t, repo, p, id);
    StoredWasRequested(HashIds(h), es, run, j);
    RequestedLater(es, j, |es|);
    var r := ReadView(run[i].store, run[j].store, repo, id);
    assert Requested(es, |es|, WriteView(repo, Some(r.value)));
    assert !ViewsCollide(h, r.value, p);
  }

  /** What a client gets back is what was written, up to the order of repeated fields, when the view
      found has the shape of the one written. */
  lemma ViewReadsBack(h: Hasher, es: seq<Event>, run: seq<Sys>, m: nat, i: nat, j: nat, t: TaskId,
                      repo: RepoId, p: View, id: Bytes)
    requires WrittenThenRead(HashIds(h), es, run, m, i, j, t, WriteView(repo, Some(p)), id)
    requires NoViewCollision(h, es, repo)
    ensures var r := ReadView(run[i].store, run[j].store, repo, id);
      r.Found? && (AllFit(ViewTokens(r.value)) && AllFit(ViewTokens(p)) && SameShape(r.value, p) ==>
        SameView(r.value, p))
  {
    ViewReadsSameBuffer(h, es, run, m, i, j, t, repo, p, id);
    var q := ReadView(run[i].store, run[j].store, repo, id).value;
    if AllFit(ViewTokens(q)) && AllFit(ViewTokens(p)) && SameShape(q, p) {
      ViewPreimageDecodes(q, p);
    }
  }

  ghost predicate ClientView(p: View) {
    exists v: JjView, headIds :: Enumerates(headIds, v.headIds) && p == ViewToProto(v, headIds)
  }

  /** When clients wrote all views of the repository, whoever reads a written id and writes the view
      back gets the same id, with no assumption about collisions. */
  lemma ViewWriteBackKeepsId(h: Hasher, es: seq<Event>, run: seq<Sys>, m: nat, i: nat, j: nat, t: TaskId,
                             repo: RepoId, p: View, id: Bytes, headIds: seq<Bytes>)
    requires WrittenThenRead(HashIds(h), es, run, m, i, j, t, WriteView(repo, Some(p)), id)
    requires forall q :: Requested(es, |es|, WriteView(repo, Some(q))) ==> ClientView(q)
    ensures var r := ReadView(run[i].store, run[j].store, repo, id);
      r.Found? && (Enumerates(headIds, ViewFromProto(r.value).headIds) ==>
        h.blob(ViewPreimage(ViewToProto(ViewFromProto(r.value), headIds)))[..16] == id)
  {
    ViewReadAfterWrite(HashIds(h), es, run, m, i, j, t, repo, p, id);
    StoredWasRequested(HashIds(h), es, run, j);
    RequestedLater(es, j, |es|);
    var q := ReadView(run[i].store, run[j].store, repo, id).value;
    assert Requested(es, |es|, WriteView(repo, Some(q)));
    var v: JjView, sent: seq<Bytes> :| Enumerates(sent, v.headIds) && q == ViewToProto(v, sent);
    if Enumerates(headIds, ViewFromProto(q).headIds) {
      ViewIdStable(h.blob, v, sent, headIds);
    }
  }

  // ---------- Trees ----------

  /** `write_tree` on the client: the empty tree is not sent. */
  ghost predicate TreeWritten(h: Hasher, es: seq<Event>, run: seq<Sys>, m: nat, i: nat, j: nat, t: TaskId,
                              repo: RepoId, tree: seq<JjTreeEntry>, id: Bytes)
  {
    if tree == [] then m <= i <= j <= |es| < |run| && id == EMPTY_TREE_ID
    else
      TreeToProto(tree).Success?
      && WrittenThenRead(HashIds(h), es, run, m, i, j, t, WriteTree(repo, TreeToProto(tree).value), id)
  }

  /** `read_tree` on the client: the empty tree is not asked for. */
  function ClientReadTree(id: Bytes, reply: ReadResult<seq<TreeEntry>>): Result<seq<JjTreeEntry>> {
    if id == EMPTY_TREE_ID then Success([])
    else
      match reply
      case Found(ps) => TreeFromProto(ps)
      case _ => Failure
  }

  /** The client reads a tree exactly when its id is the empty tree's, or the server finds entries all
      of which the client accepts. */
  lemma ClientReadTreeExactly(id: Bytes, reply: ReadResult<seq<TreeEntry>>)
    ensures ClientReadTree(id, reply).Success? <==>
      id == EMPTY_TREE_ID || (reply.Found? && forall k :: 0 <= k < |reply.value| ==> Acceptable(reply.value[k]))
  {
    if reply.Found? { TreeFromProtoExactly(reply.value); }
  }

  ghost predicate ClientTree(ps: seq<TreeEntry>) {
    exists tree :: WellFormedTree(tree) && TreeToProto(tree) == Success(ps)
  }

  lemma ClientTreeReads(ps: seq<TreeEntry>, tree: seq<JjTreeEntry>)
    requires ClientTree(ps) && WellFormedTree(tree) && TreeToProto(tree).Success?
    requires TreeList(ps) == TreeList(TreeToProto(tree).value)
    ensures TreeFromProto(ps).Success? && SameButCopies(TreeFromProto(ps).value, tree)
  {
    var sent :| WellFormedTree(sent) && TreeToProto(sent) == Success(ps);
    TreeListDetermines(sent, tree);
    TreeRoundTrip(sent);
    forall k | 0 <= k < |sent| ensures ForgetCopy(NormalTree(sent)[k]) == ForgetCopy(tree[k]) {
      assert ForgetCopy(sent[k]) == ForgetCopy(tree[k]);
    }
  }

  lemma NonEmptyTreeList(tree: seq<JjTreeEntry>)
    requires WellFormedTree(tree) && tree != []
    ensures TreeToProto(tree).Success? && TreeList(TreeToProto(tree).value) != []
  {
    NothingFiltered(tree);
    SortOnSorted(GitKey, GitEntries(TreeToProto(tree).value));
    SameElements(TreeList(TreeToProto(tree).value), GitEntries(TreeToProto(tree).value));
  }

  lemma SentTreeReads(h: Hasher, es: seq<Event>, run: seq<Sys>, m: nat, i: nat, j: nat, t: TaskId,
                      repo: RepoId, ps: seq<TreeEntry>, id: Bytes)
    requires WrittenThenRead(HashIds(h), es, run, m, i, j, t, WriteTree(repo, ps), id)
    requires NoTreeCollision(h, es, repo) && TreeList(ps) != []
    ensures id != EMPTY_TREE_ID
    ensures var r := ReadTree(run[i].store, run[j].store, repo, id);
      r.Found? && Requested(es, |es|, WriteTree(repo, r.value)) && TreeList(r.value) == TreeList(ps)
  {
    WriteWasRequested(HashIds(h), es, run, m, i, j, t, WriteTree(repo, ps), id);
    TreeReadAfterWrite(HashIds(h), es, run, m, i, j, t, repo, ps, id);
    StoredWasRequested(HashIds(h), es, run, j);
    RequestedLater(es, j, |es|);
    var r := ReadTree(run[i].store, run[j].store, repo, id);
    assert Requested(es, |es|, WriteTree(repo, r.value));
    assert !TreesCollide(h, TreeList(r.value), TreeList(ps));
  }

  /** A client's tree, empty or not, reads back as itself up to copy ids, which are not hashed. */
  lemma TreeReadsBack(h: Hasher, es: seq<Event>, run: seq<Sys>, m: nat, i: nat, j: nat, t: TaskId,
                      repo: RepoId, tree: seq<JjTreeEntry>, id: Bytes)
    requires WellFormedTree(tree) && TreeWritten(h, es, run, m, i, j, t, repo, tree, id)
    requires NoTreeCollision(h, es, repo)
    requires forall ps :: Requested(es, |es|, WriteTree(repo, ps)) ==> ClientTree(ps)
    ensures var r := ClientReadTree(id, ReadTree(run[i].store, run[j].store, repo, id));
      r.Success? && SameButCopies(r.value, tree)
  {
    if tree != [] {
      NonEmptyTreeList(tree);
      SentTreeReads(h, es, run, m, i, j, t, repo, TreeToProto(tree).value, id);
      ClientTreeReads(ReadTree(run[i].store, run[j].store, repo, id).value, tree);
    }
  }

  /** ...and writing back what was read names it the same. */
  lemma TreeWriteBackKeepsId(h: Hasher, es: seq<Event>, run: seq<Sys>, m: nat, i: nat, j: nat, t: TaskId,
                             repo: RepoId, ps: seq<TreeEntry>, id: Bytes)
    requires WrittenThenRead(HashIds(h), es, run, m, i, j, t, WriteTree(repo, ps), id) && id != EMPTY_TREE_ID
    requires forall qs :: Requested(es, |es|, WriteTree(repo, qs)) ==> ClientTree(qs)
    ensures var r := ClientReadTree(id, ReadTree(run[i].store, run[j].store, repo, id));
      r.Success? && TreeToProto(r.value).Success? && h.tree(TreeList(TreeToProto(r.value).value)) == id
  {
    TreeReadAfterWrite(HashIds(h), es, run, m, i, j, t, repo, ps, id);
    StoredWasRequested(HashIds(h), es, run, j);
    RequestedLater(es, j, |es|);
    var qs := ReadTree(run[i].store, run[j].store, repo, id).value;
    assert Requested(es, |es|, WriteTree(repo, qs));
    var tree :| WellFormedTree(tree) && TreeToProto(tree) == Success(qs);
    TreeListStable(tree);
  }
}
