/** Runs of the server: any number of requests in flight, their critical sections interleaved in any
    order. The registration check of a request is one event and its put is another, later one. */
module Interleaving {
  import opened ByteStrings
  import opened Wrappers
  import opened OpStoreProto
  import opened Trees
  import opened MemoryStores
  import opened Handlers

  type TaskId = nat

  /** `inflight` holds the requests between their two sections, `replies` the finished ones. */
  datatype Sys = Sys(store: StoreState, inflight: map<TaskId, Request>, replies: map<TaskId, (Request, Reply)>)

  datatype Event =
    | Register(repo: RepoId)
    | Start(task: TaskId, request: Request)
    | Finish(task: TaskId)

  function Step(ids: Ids, s: Sys, e: Event): Sys {
    match e
    case Register(repo) => s.(store := s.store.(repos := s.store.repos + {repo}))
    case Start(t, r) =>
      if t in s.inflight || t in s.replies then s
      else
        (match Admit(s.store, r)
         case Some(refusal) => s.(replies := s.replies[t := (r, refusal)])
         case None => s.(inflight := s.inflight[t := r]))
    case Finish(t) =>
      if t in s.inflight && HasBody(s.inflight[t]) then
        var (after, reply) := Effect(ids, s.store, s.inflight[t]);
        Sys(after, s.inflight - {t}, s.replies[t := (s.inflight[t], reply)])
      else s
  }

  /** A request whose two sections run back to back is what the handler does when nothing interferes. */
  lemma UninterruptedIsHandled(ids: Ids, s: Sys, t: TaskId, r: Request)
    requires t !in s.inflight && t !in s.replies
    ensures var u := Step(ids, Step(ids, s, Start(t, r)), Finish(t));
      t in u.replies && Handled(ids, s.store, r, u.store, u.replies[t].1) && u.inflight == s.inflight
  {
    assert s.inflight[t := r] - {t} == s.inflight;
  }

  const INITIAL: Sys := Sys(EMPTY_STORE, map[], map[])

  ghost predicate StepTaken(ids: Ids, es: seq<Event>, run: seq<Sys>, k: nat)
    requires k < |es| && |run| == |es| + 1
  {
    run[k + 1] == Step(ids, run[k], es[k])
  }

  /** The states before, between and after the events of a run. */
  ghost predicate IsRun(ids: Ids, es: seq<Event>, run: seq<Sys>) {
    |run| == |es| + 1 && run[0] == INITIAL && forall k :: 0 <= k < |es| ==> StepTaken(ids, es, run, k)
  }

  /** Any events in any order make a run. */
  lemma {:induction false} RunExists(ids: Ids, es: seq<Event>) returns (run: seq<Sys>)
    ensures IsRun(ids, es, run)
  {
    if es == [] {
      run := [INITIAL];
    } else {
      var n := |es| - 1;
      var before := RunExists(ids, es[..n]);
      run := before + [Step(ids, before[n], es[n])];
      forall k | 0 <= k < |es| ensures StepTaken(ids, es, run, k) {
        if k < n { assert StepTaken(ids, es[..n], before, k); }
      }
    }
  }

  // ---------- Registration ----------

  predicate RegisteredBy(es: seq<Event>, n: nat, repo: RepoId)
    requires n <= |es|
  {
    exists k :: 0 <= k < n && es[k] == Register(repo)
  }

  /** A repository is known from its registration on, and not before. */
  lemma {:induction false} RegisteredExactly(ids: Ids, es: seq<Event>, run: seq<Sys>, n: nat, repo: RepoId)
    requires n <= |es| && IsRun(ids, es, run)
    ensures repo in run[n].store.repos <==> RegisteredBy(es, n, repo)
  {
    if n == 0 {
      assert run[0] == INITIAL;
    } else {
      RegisteredExactly(ids, es, run, n - 1, repo);
      assert StepTaken(ids, es, run, n - 1);
      ReposAfterStep(ids, run[n - 1], es[n - 1]);
      if es[n - 1] == Register(repo) { assert RegisteredBy(es, n, repo); }
    }
  }

  lemma ReposAfterStep(ids: Ids, s: Sys, e: Event)
    ensures Step(ids, s, e).store.repos == if e.Register? then s.store.repos + {e.repo} else s.store.repos
  {
    if e.Finish? && e.task in s.inflight && HasBody(s.inflight[e.task]) {
      EffectKeepsRepos(ids, s.store, s.inflight[e.task]);
    }
  }

  lemma EffectKeepsRepos(ids: Ids, s: StoreState, r: Request)
    requires HasBody(r)
    ensures Effect(ids, s, r).0.repos == s.repos
  {
  }

  /** A new request for a registered repository is let through, its body present; any other is refused. */
  lemma RequestAdmitted(ids: Ids, es: seq<Event>, run: seq<Sys>, n: nat)
    requires n < |es| && IsRun(ids, es, run)
    requires es[n].Start? && es[n].task !in run[n].inflight && es[n].task !in run[n].replies
    ensures var t, r := es[n].task, es[n].request;
      if RegisteredBy(es, n, r.repo) && HasBody(r) then run[n + 1].inflight == run[n].inflight[t := r]
      else t in run[n + 1].replies && run[n + 1].replies[t].1 in {NotRegistered, InvalidArgument}
  {
    assert StepTaken(ids, es, run, n);
    RegisteredExactly(ids, es, run, n, es[n].request.repo);
  }

  // ---------- Facts about every entry of a table ----------

  ghost predicate Each<V>(t: Table<V>, ok: (RepoId, Bytes, V) -> bool) {
    forall repo, id :: repo in t && id in t[repo] ==> ok(repo, id, t[repo][id])
  }

  ghost predicate TableExtends<V, W>(t: Table<V>, u: Table<W>) {
    forall repo, id :: repo in t && id in t[repo] ==> repo in u && id in u[repo]
  }

  // ---------- The content-address invariant ----------

  ghost predicate TablesRegistered(s: StoreState) {
    s.commits.Keys <= s.repos && s.trees.Keys <= s.repos && s.files.Keys <= s.repos
    && s.ops.Keys <= s.repos && s.views.Keys <= s.repos && s.opHeads.Keys <= s.repos
  }

  /** Every object lies under the hash of its own value, every commit under the id it carries. */
  ghost predicate ContentAddressed(ids: Ids, s: StoreState) {
    && Each(s.files, (repo: RepoId, id: Bytes, c: Bytes) => id == ids.file(c))
    && Each(s.trees, (repo: RepoId, id: Bytes, es: seq<TreeEntry>) => id == ids.tree(es))
    && Each(s.ops, (repo: RepoId, id: Bytes, op: Operation) => id == ids.operation(op))
    && Each(s.views, (repo: RepoId, id: Bytes, v: View) => id == ids.view(v))
    && Each(s.commits, (repo: RepoId, id: Bytes, c: Commit) => id == c.commitId)
  }

  ghost predicate InflightAdmitted(s: Sys) {
    forall t :: t in s.inflight ==> s.inflight[t].repo in s.store.repos && HasBody(s.inflight[t])
  }

  ghost predicate Invariant(ids: Ids, s: Sys) {
    TablesRegistered(s.store) && ContentAddressed(ids, s.store) && InflightAdmitted(s)
  }

  lemma EffectAddressed(ids: Ids, s: StoreState, r: Request)
    requires ContentAddressed(ids, s) && HasBody(r)
    ensures ContentAddressed(ids, Effect(ids, s, r).0)
  {
  }

  lemma EffectRegistered(ids: Ids, s: StoreState, r: Request)
    requires TablesRegistered(s) && HasBody(r) && r.repo in s.repos
    ensures TablesRegistered(Effect(ids, s, r).0) && Effect(ids, s, r).0.repos == s.repos
  {
  }

  lemma StepInvariant(ids: Ids, s: Sys, e: Event)
    requires Invariant(ids, s)
    ensures Invariant(ids, Step(ids, s, e))
  {
    match e
    case Register(_) =>
    case Start(_, _) =>
    case Finish(t) =>
      if t in s.inflight {
        EffectAddressed(ids, s.store, s.inflight[t]);
        EffectRegistered(ids, s.store, s.inflight[t]);
      }
  }

  /** In every reachable state data belongs to registered repositories and is content-addressed. */
  lemma {:induction false} ReachableInvariant(ids: Ids, es: seq<Event>, run: seq<Sys>, n: nat)
    requires n <= |es| && IsRun(ids, es, run)
    ensures Invariant(ids, run[n])
  {
    if n == 0 {
    } else {
      assert StepTaken(ids, es, run, n - 1);
      ReachableInvariant(ids, es, run, n - 1);
      StepInvariant(ids, run[n - 1], es[n - 1]);
    }
  }

  // ---------- Nothing disappears ----------

  ghost predicate Extends(s: StoreState, u: StoreState) {
    && s.repos <= u.repos
    && TableExtends(s.commits, u.commits)
    && TableExtends(s.trees, u.trees)
    && TableExtends(s.files, u.files)
    && TableExtends(s.ops, u.ops)
    && TableExtends(s.views, u.views)
    && s.opHeads.Keys <= u.opHeads.Keys
  }

  lemma EffectExtends(ids: Ids, s: StoreState, r: Request)
    requires HasBody(r)
    ensures Extends(s, Effect(ids, s, r).0)
  {
  }

  lemma ExtendsWithRepos(s: StoreState, repos: set<RepoId>)
    requires s.repos <= repos
    ensures Extends(s, s.(repos := repos))
  {
  }

  lemma StepExtends(ids: Ids, s: Sys, e: Event)
    ensures Extends(s.store, Step(ids, s, e).store)
  {
    match e
    case Register(repo) => ExtendsWithRepos(s.store, s.store.repos + {repo});
    case Start(_, _) => ExtendsWithRepos(s.store, s.store.repos);
    case Finish(t) =>
      if t in s.inflight && HasBody(s.inflight[t]) {
        EffectExtends(ids, s.store, s.inflight[t]);
      } else {
        ExtendsWithRepos(s.store, s.store.repos);
      }
  }

  /** A reply, once given, is final. */
  ghost predicate RepliesKept(s: Sys, u: Sys) {
    forall t :: t in s.replies ==> t in u.replies && u.replies[t] == s.replies[t]
  }

  lemma StepKeepsReplies(ids: Ids, s: Sys, e: Event)
    requires Separate(s)
    ensures RepliesKept(s, Step(ids, s, e))
  {
  }

  /** A task is in flight or answered, never both. */
  ghost predicate Separate(s: Sys) {
    s.inflight.Keys !! s.replies.Keys
  }

  lemma {:induction false} ReachableSeparate(ids: Ids, es: seq<Event>, run: seq<Sys>, n: nat)
    requires n <= |es| && IsRun(ids, es, run)
    ensures Separate(run[n])
  {
    if n == 0 {
    } else {
      assert StepTaken(ids, es, run, n - 1);
      ReachableSeparate(ids, es, run, n - 1);
    }
  }

  lemma ExtendsTransitive(s: StoreState, t: StoreState, u: StoreState)
    requires Extends(s, t) && Extends(t, u)
    ensures Extends(s, u)
  {
  }

  /** Registrations and objects stay, whatever else happens... */
  lemma {:induction false} NothingDisappears(ids: Ids, es: seq<Event>, run: seq<Sys>, m: nat, n: nat)
    requires m <= n <= |es| && IsRun(ids, es, run)
    ensures Extends(run[m].store, run[n].store)
  {
    if m == n {
    } else {
      assert StepTaken(ids, es, run, n - 1);
      var s := run[n - 1];
      NothingDisappears(ids, es, run, m, n - 1);
      StepExtends(ids, s, es[n - 1]);
      ExtendsTransitive(run[m].store, s.store, Step(ids, s, es[n - 1]).store);
    }
  }

  /** ...and so do replies. */
  lemma {:induction false} RepliesStay(ids: Ids, es: seq<Event>, run: seq<Sys>, m: nat, n: nat)
    requires m <= n <= |es| && IsRun(ids, es, run)
    ensures RepliesKept(run[m], run[n])
  {
    if m == n {
    } else {
      assert StepTaken(ids, es, run, n - 1);
      RepliesStay(ids, es, run, m, n - 1);
      ReachableSeparate(ids, es, run, n - 1);
      StepKeepsReplies(ids, run[n - 1], es[n - 1]);
    }
  }

  // ---------- What a written reply promises ----------

  /** The object of an answered write is in its table. */
  ghost predicate Stored(ids: Ids, s: StoreState, r: Request, id: Bytes) {
    match r
    case WriteCommit(repo, c) =>
      c.Some? && Get(s.commits, repo, id).Some? && id == IdentifiedCommit(ids, c.value).commitId
    case WriteTree(repo, es) => Get(s.trees, repo, id).Some? && id == ids.tree(es)
    case WriteFile(repo, c) => Get(s.files, repo, id).Some? && id == ids.file(c)
    case WriteOperation(repo, op) => op.Some? && Get(s.ops, repo, id).Some? && id == ids.operation(op.value)
    case WriteView(repo, v) => v.Some? && Get(s.views, repo, id).Some? && id == ids.view(v.value)
    case UpdateOpHeads(_, _) => false
  }

  ghost predicate RepliesStored(ids: Ids, s: Sys) {
    forall t :: t in s.replies && s.replies[t].1.Written? ==>
      s.replies[t].0.repo in s.store.repos && Stored(ids, s.store, s.replies[t].0, s.replies[t].1.id)
  }

  lemma StoredStays(ids: Ids, s: StoreState, u: StoreState, r: Request, id: Bytes)
    requires Stored(ids, s, r, id) && Extends(s, u)
    ensures Stored(ids, u, r, id)
  {
  }

  lemma EffectStores(ids: Ids, s: StoreState, r: Request)
    requires HasBody(r) && Effect(ids, s, r).1.Written?
    ensures Stored(ids, Effect(ids, s, r).0, r, Effect(ids, s, r).1.id)
  {
  }

  lemma StepRepliesStored(ids: Ids, s: Sys, e: Event)
    requires RepliesStored(ids, s) && InflightAdmitted(s)
    ensures RepliesStored(ids, Step(ids, s, e))
  {
    var s' := Step(ids, s, e);
    StepExtends(ids, s, e);
    forall t | t in s'.replies && s'.replies[t].1.Written?
      ensures s'.replies[t].0.repo in s'.store.repos && Stored(ids, s'.store, s'.replies[t].0, s'.replies[t].1.id)
    {
      if e.Finish? && t == e.task && t in s.inflight {
        EffectStores(ids, s.store, s.inflight[t]);
      } else if t in s.replies && s'.replies[t] == s.replies[t] {
        StoredStays(ids, s.store, s'.store, s.replies[t].0, s.replies[t].1.id);
      }
    }
  }

  lemma {:induction false} ReachableRepliesStored(ids: Ids, es: seq<Event>, run: seq<Sys>, n: nat)
    requires n <= |es| && IsRun(ids, es, run)
    ensures RepliesStored(ids, run[n])
  {
    if n == 0 {
    } else {
      assert StepTaken(ids, es, run, n - 1);
      ReachableRepliesStored(ids, es, run, n - 1);
      ReachableInvariant(ids, es, run, n - 1);
      StepRepliesStored(ids, run[n - 1], es[n - 1]);
    }
  }

  /** At event `m` task `t` had been told that request `r` was written under `id`. */
  predicate Answered(run: seq<Sys>, m: nat, t: TaskId, r: Request, id: Bytes)
    requires m < |run|
  {
    t in run[m].replies && run[m].replies[t] == (r, Written(id))
  }

  lemma AnsweredIsStored(ids: Ids, es: seq<Event>, run: seq<Sys>, m: nat, n: nat, t: TaskId, r: Request, id: Bytes)
    requires m <= n <= |es| && IsRun(ids, es, run) && Answered(run, m, t, r, id)
    ensures r.repo in run[n].store.repos && Stored(ids, run[n].store, r, id)
  {
    RepliesStay(ids, es, run, m, n);
    ReachableRepliesStored(ids, es, run, n);
  }

  // ---------- Read after write ----------

  /** Every later read of a written file, whatever is interleaved, finds content with that hash. */
  lemma FileReadAfterWrite(ids: Ids, es: seq<Event>, run: seq<Sys>, m: nat, i: nat, j: nat, t: TaskId,
                           repo: RepoId, content: Bytes, id: Bytes)
    requires m <= i <= j <= |es| && IsRun(ids, es, run) && Answered(run, m, t, WriteFile(repo, content), id)
    ensures var r := ReadFile(run[i].store, run[j].store, repo, id);
      r.Found? && ids.file(r.value) == id == ids.file(content)
  {
    AnsweredIsStored(ids, es, run, m, i, t, WriteFile(repo, content), id);
    AnsweredIsStored(ids, es, run, m, j, t, WriteFile(repo, content), id);
    ReachableInvariant(ids, es, run, j);
  }

  lemma OperationReadAfterWrite(ids: Ids, es: seq<Event>, run: seq<Sys>, m: nat, i: nat, j: nat, t: TaskId,
                                repo: RepoId, op: Operation, id: Bytes)
    requires m <= i <= j <= |es| && IsRun(ids, es, run) && Answered(run, m, t, WriteOperation(repo, Some(op)), id)
    ensures var r := ReadOperation(run[i].store, run[j].store, repo, id);
      r.Found? && Get(run[j].store.ops, repo, id) == Some(r.value)
      && ids.operation(r.value) == id == ids.operation(op)
  {
    AnsweredIsStored(ids, es, run, m, i, t, WriteOperation(repo, Some(op)), id);
    AnsweredIsStored(ids, es, run, m, j, t, WriteOperation(repo, Some(op)), id);
    ReachableInvariant(ids, es, run, j);
  }

  lemma ViewReadAfterWrite(ids: Ids, es: seq<Event>, run: seq<Sys>, m: nat, i: nat, j: nat, t: TaskId,
                           repo: RepoId, v: View, id: Bytes)
    requires m <= i <= j <= |es| && IsRun(ids, es, run) && Answered(run, m, t, WriteView(repo, Some(v)), id)
    ensures var r := ReadView(run[i].store, run[j].store, repo, id);
      r.Found? && Get(run[j].store.views, repo, id) == Some(r.value)
      && ids.view(r.value) == id == ids.view(v)
  {
    AnsweredIsStored(ids, es, run, m, i, t, WriteView(repo, Some(v)), id);
    AnsweredIsStored(ids, es, run, m, j, t, WriteView(repo, Some(v)), id);
    ReachableInvariant(ids, es, run, j);
  }

  /** A tree read finds a tree with the written id, except that the empty tree's id always reads
      as no entries. */
  lemma TreeReadAfterWrite(ids: Ids, es: seq<Event>, run: seq<Sys>, m: nat, i: nat, j: nat, t: TaskId,
                           repo: RepoId, entries: seq<TreeEntry>, id: Bytes)
    requires m <= i <= j <= |es| && IsRun(ids, es, run) && Answered(run, m, t, WriteTree(repo, entries), id)
    ensures var r := ReadTree(run[i].store, run[j].store, repo, id);
      r.Found? && id == ids.tree(entries)
      && (if id == EMPTY_TREE_ID then r.value == [] else ids.tree(r.value) == id)
  {
    AnsweredIsStored(ids, es, run, m, i, t, WriteTree(repo, entries), id);
    AnsweredIsStored(ids, es, run, m, j, t, WriteTree(repo, entries), id);
    ReachableInvariant(ids, es, run, j);
  }

  // ---------- Repositories do not affect each other ----------

  /** Everything the server holds for one repository. */
  function RepoSlice(s: StoreState, repo: RepoId): StoreState {
    StoreState(
      if repo in s.repos then {repo} else {},
      map[repo := Slice(s.commits, repo)], map[repo := Slice(s.trees, repo)], map[repo := Slice(s.files, repo)],
      map[repo := Slice(s.ops, repo)], map[repo := Slice(s.views, repo)], map[repo := CurrentHeads(s, repo)])
  }

  /** A step that registers, or finishes a request of, another repository. */
  predicate Foreign(s: Sys, e: Event, repo: RepoId) {
    match e
    case Register(r) => r != repo
    case Start(_, _) => true
    case Finish(t) => t in s.inflight ==> s.inflight[t].repo != repo
  }

  lemma SliceAfterPut<V>(t: Table<V>, repo: RepoId, id: Bytes, v: V, other: RepoId)
    requires other != repo
    ensures Slice(Put(t, repo, id, v), other) == Slice(t, other)
  {
  }

  lemma EffectForeign(ids: Ids, s: StoreState, r: Request, other: RepoId)
    requires HasBody(r) && r.repo != other
    ensures RepoSlice(Effect(ids, s, r).0, other) == RepoSlice(s, other)
  {
    match r
    case WriteCommit(repo, Some(c)) =>
      var commit := IdentifiedCommit(ids, c);
      SliceAfterPut(s.commits, repo, commit.commitId, commit, other);
    case WriteTree(repo, es) => SliceAfterPut(s.trees, repo, ids.tree(es), es, other);
    case WriteFile(repo, c) => SliceAfterPut(s.files, repo, ids.file(c), c, other);
    case WriteOperation(repo, Some(op)) => SliceAfterPut(s.ops, repo, ids.operation(op), op, other);
    case WriteView(repo, Some(v)) => SliceAfterPut(s.views, repo, ids.view(v), v, other);
    case UpdateOpHeads(_, _) =>
  }

  lemma OtherRepositoriesUntouched(ids: Ids, s: Sys, e: Event, repo: RepoId)
    requires Foreign(s, e, repo)
    ensures RepoSlice(Step(ids, s, e).store, repo) == RepoSlice(s.store, repo)
  {
    if e.Finish? && e.task in s.inflight && HasBody(s.inflight[e.task]) {
      EffectForeign(ids, s.store, s.inflight[e.task], repo);
    }
  }

  // ---------- Where stored values come from ----------

  ghost predicate Requested(es: seq<Event>, n: nat, r: Request)
    requires n <= |es|
  {
    exists k :: 0 <= k < n && es[k].Start? && es[k].request == r
  }

  ghost predicate SourcedStore(es: seq<Event>, n: nat, s: StoreState)
    requires n <= |es|
  {
    && Each(s.trees, (repo: RepoId, id: Bytes, ts: seq<TreeEntry>) => Requested(es, n, WriteTree(repo, ts)))
    && Each(s.files, (repo: RepoId, id: Bytes, c: Bytes) => Requested(es, n, WriteFile(repo, c)))
    && Each(s.ops, (repo: RepoId, id: Bytes, op: Operation) => Requested(es, n, WriteOperation(repo, Some(op))))
    && Each(s.views, (repo: RepoId, id: Bytes, v: View) => Requested(es, n, WriteView(repo, Some(v))))
  }

  ghost predicate SourcedInflight(es: seq<Event>, n: nat, s: Sys)
    requires n <= |es|
  {
    forall t :: t in s.inflight ==> Requested(es, n, s.inflight[t])
  }

  lemma RequestedLater(es: seq<Event>, m: nat, n: nat)
    requires m <= n <= |es|
    ensures forall r :: Requested(es, m, r) ==> Requested(es, n, r)
  {
  }

  lemma SourcedLater(es: seq<Event>, m: nat, n: nat, s: Sys)
    requires m <= n <= |es| && SourcedStore(es, m, s.store) && SourcedInflight(es, m, s)
    ensures SourcedStore(es, n, s.store) && SourcedInflight(es, n, s)
  {
    RequestedLater(es, m, n);
  }

  lemma SourcedEffect(ids: Ids, es: seq<Event>, n: nat, s: StoreState, r: Request)
    requires n <= |es| && SourcedStore(es, n, s) && HasBody(r) && Requested(es, n, r)
    ensures SourcedStore(es, n, Effect(ids, s, r).0)
  {
  }

  /** Every request in flight was sent by somebody... */
  lemma {:induction false} InflightWasRequested(ids: Ids, es: seq<Event>, run: seq<Sys>, n: nat)
    requires n <= |es| && IsRun(ids, es, run)
    ensures SourcedInflight(es, n, run[n])
  {
    if n == 0 {
    } else {
      assert StepTaken(ids, es, run, n - 1);
      InflightWasRequested(ids, es, run, n - 1);
      RequestedLater(es, n - 1, n);
      if es[n - 1].Start? { assert Requested(es, n, es[n - 1].request); }
    }
  }

  lemma SourcedStep(ids: Ids, es: seq<Event>, n: nat, s: Sys, e: Event)
    requires n <= |es| && SourcedStore(es, n, s.store) && SourcedInflight(es, n, s)
    ensures SourcedStore(es, n, Step(ids, s, e).store)
  {
    if e.Finish? && e.task in s.inflight && HasBody(s.inflight[e.task]) {
      SourcedEffect(ids, es, n, s.store, s.inflight[e.task]);
    } else {
      assert SameTables(Step(ids, s, e).store, s.store);
    }
  }

  predicate SameTables(s: StoreState, u: StoreState) {
    s.(repos := u.repos) == u
  }

  /** ...and so was every stored tree, file, operation and view. */
  lemma {:induction false} StoredWasRequested(ids: Ids, es: seq<Event>, run: seq<Sys>, n: nat)
    requires n <= |es| && IsRun(ids, es, run)
    ensures SourcedStore(es, n, run[n].store)
  {
    if n == 0 {
    } else {
      assert StepTaken(ids, es, run, n - 1);
      StoredWasRequested(ids, es, run, n - 1);
      InflightWasRequested(ids, es, run, n - 1);
      SourcedLater(es, n - 1, n, run[n - 1]);
      SourcedStep(ids, es, n, run[n - 1], es[n - 1]);
    }
  }

  /** An answered write was requested. */
  lemma {:induction false} AnsweredWasRequested(ids: Ids, es: seq<Event>, run: seq<Sys>, m: nat, t: TaskId)
    requires m <= |es| && IsRun(ids, es, run) && t in run[m].replies
    ensures Requested(es, m, run[m].replies[t].0)
  {
    assert m > 0 && StepTaken(ids, es, run, m - 1);
    var s, e := run[m - 1], es[m - 1];
    RequestedLater(es, m - 1, m);
    InflightWasRequested(ids, es, run, m - 1);
    if t in s.replies && s.replies[t] == run[m].replies[t] {
      AnsweredWasRequested(ids, es, run, m - 1, t);
    } else if e.Start? {
      assert Requested(es, m, e.request);
    }
  }

  // ---------- Commits ----------

  /** `c` is some commit that was sent, carrying the id it came with or its hash. */
  ghost predicate CommitSent(ids: Ids, es: seq<Event>, n: nat, repo: RepoId, c: Commit)
    requires n <= |es|
  {
    exists sent :: Requested(es, n, WriteCommit(repo, Some(sent))) && Identified(ids, sent, c)
  }

  /** `c` is `sent` with an id: the one it came with, or else its hash. */
  predicate Identified(ids: Ids, sent: Commit, c: Commit) {
    c == sent.(commitId := c.commitId) && c.commitId == if sent.commitId == [] then ids.commit(sent) else sent.commitId
  }

  ghost predicate CommitsSent(ids: Ids, es: seq<Event>, n: nat, s: StoreState)
    requires n <= |es|
  {
    forall repo, id :: repo in s.commits && id in s.commits[repo] ==> CommitSent(ids, es, n, repo, s.commits[repo][id])
  }

  lemma CommitSentLater(ids: Ids, es: seq<Event>, m: nat, n: nat, repo: RepoId, c: Commit)
    requires m <= n <= |es| && CommitSent(ids, es, m, repo, c)
    ensures CommitSent(ids, es, n, repo, c)
  {
    var sent :| Requested(es, m, WriteCommit(repo, Some(sent))) && Identified(ids, sent, c);
    RequestedLater(es, m, n);
  }

  lemma CommitsSentEffect(ids: Ids, es: seq<Event>, n: nat, s: StoreState, r: Request)
    requires n <= |es| && CommitsSent(ids, es, n, s) && HasBody(r) && Requested(es, n, r)
    ensures CommitsSent(ids, es, n, Effect(ids, s, r).0)
  {
    if r.WriteCommit? {
      assert Identified(ids, r.commit.value, IdentifiedCommit(ids, r.commit.value));
      assert CommitSent(ids, es, n, r.repo, IdentifiedCommit(ids, r.commit.value));
    }
  }

  lemma CommitsSentStep(ids: Ids, es: seq<Event>, n: nat, s: Sys, e: Event)
    requires n <= |es| && CommitsSent(ids, es, n, s.store) && SourcedInflight(es, n, s)
    ensures CommitsSent(ids, es, n, Step(ids, s, e).store)
  {
    if e.Finish? && e.task in s.inflight && HasBody(s.inflight[e.task]) {
      CommitsSentEffect(ids, es, n, s.store, s.inflight[e.task]);
    } else {
      assert SameTables(Step(ids, s, e).store, s.store);
    }
  }

  /** Every stored commit was sent. */
  lemma {:induction false} StoredCommitWasSent(ids: Ids, es: seq<Event>, run: seq<Sys>, n: nat)
    requires n <= |es| && IsRun(ids, es, run)
    ensures CommitsSent(ids, es, n, run[n].store)
  {
    if n == 0 {
      assert run[0] == INITIAL;
    } else {
      var s := run[n - 1];
      assert StepTaken(ids, es, run, n - 1);
      StoredCommitWasSent(ids, es, run, n - 1);
      forall repo, id | repo in s.store.commits && id in s.store.commits[repo]
        ensures CommitSent(ids, es, n, repo, s.store.commits[repo][id])
      {
        CommitSentLater(ids, es, n - 1, n, repo, s.store.commits[repo][id]);
      }
      InflightWasRequested(ids, es, run, n - 1);
      RequestedLater(es, n - 1, n);
      CommitsSentStep(ids, es, n, s, es[n - 1]);
    }
  }

  /** No commit is sent with an id of its own, as jj clients never do. */
  ghost predicate CommitsUnnamed(es: seq<Event>, repo: RepoId) {
    forall c :: Requested(es, |es|, WriteCommit(repo, Some(c))) ==> c.commitId == []
  }

  /** The commit as it was hashed, before it got its id. */
  function Unnamed(c: Commit): Commit {
    c.(commitId := [])
  }

  /** When clients send no ids of their own, commits are content-addressed too. */
  lemma CommitsContentAddressed(ids: Ids, es: seq<Event>, run: seq<Sys>, n: nat, repo: RepoId, id: Bytes)
    requires n <= |es| && IsRun(ids, es, run) && CommitsUnnamed(es, repo)
    requires Get(run[n].store.commits, repo, id).Some?
    ensures id == ids.commit(Unnamed(run[n].store.commits[repo][id]))
  {
    var c := run[n].store.commits[repo][id];
    ReachableInvariant(ids, es, run, n);
    StoredCommitWasSent(ids, es, run, n);
    assert CommitSent(ids, es, n, repo, c);
    var sent :| Requested(es, n, WriteCommit(repo, Some(sent))) && Identified(ids, sent, c);
    RequestedLater(es, n, |es|);
    assert Unnamed(c) == sent;
  }

  /** Every later read of a written commit finds one that was sent and carries that id; when clients
      send no ids of their own, it has the hash of the one written. */
  lemma CommitReadAfterWrite(ids: Ids, es: seq<Event>, run: seq<Sys>, m: nat, i: nat, j: nat, t: TaskId,
                             repo: RepoId, c: Option<Commit>, id: Bytes)
    requires m <= i <= j <= |es| && IsRun(ids, es, run) && Answered(run, m, t, WriteCommit(repo, c), id)
    ensures var r := ReadCommit(run[i].store, run[j].store, repo, id);
      c.Some? && r.Found? && r.value.commitId == id && CommitSent(ids, es, j, repo, r.value)
      && id == (if c.value.commitId == [] then ids.commit(c.value) else c.value.commitId)
      && (CommitsUnnamed(es, repo) ==> ids.commit(Unnamed(r.value)) == id == ids.commit(c.value))
  {
    AnsweredIsStored(ids, es, run, m, i, t, WriteCommit(repo, c), id);
    AnsweredIsStored(ids, es, run, m, j, t, WriteCommit(repo, c), id);
    ReachableInvariant(ids, es, run, j);
    StoredCommitWasSent(ids, es, run, j);
    if CommitsUnnamed(es, repo) {
      CommitsContentAddressed(ids, es, run, j, repo, id);
      AnsweredWasRequested(ids, es, run, m, t);
      RequestedLater(es, m, |es|);
    }
  }

  // ---------- What a read can answer at all ----------

  /** A file read knows the repository exactly from its registration on, and finds only content that
      was sent and has that id. */
  lemma FileReadOrigin(ids: Ids, es: seq<Event>, run: seq<Sys>, i: nat, j: nat, repo: RepoId, id: Bytes)
    requires i <= j <= |es| && IsRun(ids, es, run)
    ensures var r := ReadFile(run[i].store, run[j].store, repo, id);
      && (r.Unregistered? <==> !RegisteredBy(es, i, repo))
      && (r.Found? ==> ids.file(r.value) == id && Requested(es, j, WriteFile(repo, r.value)))
  {
    RegisteredExactly(ids, es, run, i, repo);
    ReachableInvariant(ids, es, run, j);
    StoredWasRequested(ids, es, run, j);
  }

  lemma TreeReadOrigin(ids: Ids, es: seq<Event>, run: seq<Sys>, i: nat, j: nat, repo: RepoId, id: Bytes)
    requires i <= j <= |es| && IsRun(ids, es, run)
    ensures var r := ReadTree(run[i].store, run[j].store, repo, id);
      && (r.Unregistered? <==> !RegisteredBy(es, i, repo))
      && (r.Found? ==> (id == EMPTY_TREE_ID && r.value == [])
                       || (ids.tree(r.value) == id && Requested(es, j, WriteTree(repo, r.value))))
  {
    RegisteredExactly(ids, es, run, i, repo);
    ReachableInvariant(ids, es, run, j);
    StoredWasRequested(ids, es, run, j);
  }

  lemma CommitReadOrigin(ids: Ids, es: seq<Event>, run: seq<Sys>, i: nat, j: nat, repo: RepoId, id: Bytes)
    requires i <= j <= |es| && IsRun(ids, es, run)
    ensures var r := ReadCommit(run[i].store, run[j].store, repo, id);
      && (r.Unregistered? <==> !RegisteredBy(es, i, repo))
      && (r.Found? ==> r.value.commitId == id && CommitSent(ids, es, j, repo, r.value))
  {
    RegisteredExactly(ids, es, run, i, repo);
    ReachableInvariant(ids, es, run, j);
    StoredCommitWasSent(ids, es, run, j);
  }

  /** Besides what was sent, only the root operation and the root view are found, and both always are. */
  lemma OperationReadOrigin(ids: Ids, es: seq<Event>, run: seq<Sys>, i: nat, j: nat, repo: RepoId, id: Bytes)
    requires i <= j <= |es| && IsRun(ids, es, run)
    ensures var r := ReadOperation(run[i].store, run[j].store, repo, id);
      && (r.Unregistered? <==> !RegisteredBy(es, i, repo))
      && (r.Found? ==> (id == ROOT_OPERATION_ID && r.value == ROOT_OPERATION)
                       || (ids.operation(r.value) == id && Requested(es, j, WriteOperation(repo, Some(r.value)))))
      && (RegisteredBy(es, i, repo) && id == ROOT_OPERATION_ID ==> r.Found?)
  {
    RegisteredExactly(ids, es, run, i, repo);
    ReachableInvariant(ids, es, run, j);
    StoredWasRequested(ids, es, run, j);
  }

  lemma ViewReadOrigin(ids: Ids, es: seq<Event>, run: seq<Sys>, i: nat, j: nat, repo: RepoId, id: Bytes)
    requires i <= j <= |es| && IsRun(ids, es, run)
    ensures var r := ReadView(run[i].store, run[j].store, repo, id);
      && (r.Unregistered? <==> !RegisteredBy(es, i, repo))
      && (r.Found? ==> (id == ROOT_VIEW_ID && r.value == ROOT_VIEW)
                       || (ids.view(r.value) == id && Requested(es, j, WriteView(repo, Some(r.value)))))
      && (RegisteredBy(es, i, repo) && id == ROOT_VIEW_ID ==> r.Found?)
  {
    RegisteredExactly(ids, es, run, i, repo);
    ReachableInvariant(ids, es, run, j);
    StoredWasRequested(ids, es, run, j);
  }
}
