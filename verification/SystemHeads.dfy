/** The op heads of one repository inside a full run of the server, and what the protocol promises
    to any number of clients whose requests interleave. */
module SystemHeads {
  import opened OpDag
  import opened OpHeads
  import opened MemoryStores
  import opened Handlers
  import opened Interleaving

  /** The heads after the first `n` events. */
  function HeadsNow(run: seq<Sys>, n: nat, repo: RepoId): seq<OpId>
    requires n < |run|
  {
    CurrentHeads(run[n].store, repo)
  }

  /** The update that an event carries out on the heads of `repo`, if any. */
  function UpdateDone(s: Sys, e: Event, repo: RepoId): (us: seq<Update>)
    ensures |us| <= 1
  {
    if e.Finish? && e.task in s.inflight && s.inflight[e.task].UpdateOpHeads? && s.inflight[e.task].repo == repo
    then [s.inflight[e.task].update] else []
  }

  /** The updates of `repo` in the order in which the server carried them out. */
  function UpdatesOf(es: seq<Event>, run: seq<Sys>, n: nat, repo: RepoId): seq<Update>
    requires n <= |es| < |run|
  {
    if n == 0 then [] else UpdatesOf(es, run, n - 1, repo) + UpdateDone(run[n - 1], es[n - 1], repo)
  }

  lemma EffectOnHeads(ids: Ids, s: StoreState, r: Request, repo: RepoId)
    requires HasBody(r)
    ensures CurrentHeads(Effect(ids, s, r).0, repo)
         == if r.UpdateOpHeads? && r.repo == repo then UpdatedHeads(CurrentHeads(s, repo), r.update)
            else CurrentHeads(s, repo)
  {
  }

  lemma HeadsStep(ids: Ids, s: Sys, e: Event, repo: RepoId)
    ensures var done := UpdateDone(s, e, repo);
      CurrentHeads(Step(ids, s, e).store, repo)
      == if done == [] then CurrentHeads(s.store, repo) else UpdatedHeads(CurrentHeads(s.store, repo), done[0])
  {
    if e.Finish? && e.task in s.inflight && HasBody(s.inflight[e.task]) {
      EffectOnHeads(ids, s.store, s.inflight[e.task], repo);
    }
  }

  lemma HeadsAtMore(us: seq<Update>, done: seq<Update>)
    requires |done| <= 1
    ensures HeadsAt(us + done, |us + done|)
         == if done == [] then HeadsAt(us, |us|) else UpdatedHeads(HeadsAt(us, |us|), done[0])
  {
    if done == [] {
      assert us + done == us;
    } else {
      HeadsAtExtension(us, done, |us|);
      assert (us + done)[|us|] == done[0] && |us + done| == |us| + 1;
    }
  }

  /** Whatever else the server does, the heads of a repository are those of its own updates run one
      after another; the list created lazily by the first update is the default that reads report. */
  lemma {:induction false} HeadsProjection(ids: Ids, es: seq<Event>, run: seq<Sys>, n: nat, repo: RepoId)
    requires n <= |es| && IsRun(ids, es, run)
    ensures var us := UpdatesOf(es, run, n, repo); HeadsNow(run, n, repo) == HeadsAt(us, |us|)
  {
    if n == 0 {
    } else {
      assert StepTaken(ids, es, run, n - 1);
      HeadsProjection(ids, es, run, n - 1, repo);
      HeadsStep(ids, run[n - 1], es[n - 1], repo);
      HeadsAtMore(UpdatesOf(es, run, n - 1, repo), UpdateDone(run[n - 1], es[n - 1], repo));
    }
  }

  /** What a read of the heads answers when its check comes after `i` events and its lookup after `j`:
      refused unless the repository was registered by then, and otherwise the outcome of all the
      repository's updates carried out so far, starting from the root. */
  lemma HeadsRead(ids: Ids, es: seq<Event>, run: seq<Sys>, i: nat, j: nat, repo: RepoId)
    requires i <= j <= |es| && IsRun(ids, es, run)
    ensures var us := UpdatesOf(es, run, j, repo);
      ReadOpHeads(run[i].store, run[j].store, repo)
      == if RegisteredBy(es, i, repo) then Found(HeadsAt(us, |us|)) else Unregistered
    ensures HeadsAt([], 0) == [[0, 0, 0, 0, 0, 0, 0, 0, 0, 0, 0, 0, 0, 0, 0, 0]]
  {
    RegisteredExactly(ids, es, run, i, repo);
    HeadsProjection(ids, es, run, j, repo);
  }

  /** A read with these two moments reports `heads`. */
  predicate Reports(run: seq<Sys>, i: nat, j: nat, repo: RepoId, heads: seq<OpId>) {
    i <= j < |run| && ReadOpHeads(run[i].store, run[j].store, repo) == Found(heads)
  }

  lemma ReportedAreNow(ids: Ids, es: seq<Event>, run: seq<Sys>, i: nat, j: nat, repo: RepoId, heads: seq<OpId>)
    requires IsRun(ids, es, run) && Reports(run, i, j, repo, heads)
    ensures heads == HeadsNow(run, j, repo)
  {
    HeadsRead(ids, es, run, i, j, repo);
    HeadsProjection(ids, es, run, j, repo);
  }

  lemma {:induction false} UpdatesGrow(es: seq<Event>, run: seq<Sys>, m: nat, n: nat, repo: RepoId)
    requires m <= n <= |es| < |run|
    ensures UpdatesOf(es, run, m, repo) <= UpdatesOf(es, run, n, repo)
  {
    if m == n {
    } else {
      UpdatesGrow(es, run, m, n - 1, repo);
    }
  }

  lemma EverHeadOfPrefix(us: seq<Update>, vs: seq<Update>, x: OpId)
    requires us <= vs && x in HeadsAt(us, |us|)
    ensures EverHead(vs, |vs|, x)
  {
    assert vs == us + vs[|us|..];
    HeadsAtExtension(us, vs[|us|..], |us|);
    assert HeadAt(vs, |us|, x);
  }

  /** A head reported at time `m` is a head of the update run, at its position then. */
  lemma ShownIsEverHead(ids: Ids, es: seq<Event>, run: seq<Sys>, m: nat, n: nat, repo: RepoId, x: OpId)
    requires m <= n <= |es| && IsRun(ids, es, run) && x in HeadsNow(run, m, repo)
    ensures var us := UpdatesOf(es, run, n, repo); EverHead(us, |us|, x)
  {
    UpdatesGrow(es, run, m, n, repo);
    HeadsProjection(ids, es, run, m, repo);
    EverHeadOfPrefix(UpdatesOf(es, run, m, repo), UpdatesOf(es, run, n, repo), x);
  }

  // ---------- What the clients send ----------

  /** An update that was carried out had been sent. */
  lemma {:induction false} UpdateWasRequested(ids: Ids, es: seq<Event>, run: seq<Sys>, n: nat, repo: RepoId, i: nat)
    requires n <= |es| && IsRun(ids, es, run) && i < |UpdatesOf(es, run, n, repo)|
    ensures Requested(es, |es|, UpdateOpHeads(repo, UpdatesOf(es, run, n, repo)[i]))
  {
    if i < |UpdatesOf(es, run, n - 1, repo)| {
      UpdateWasRequested(ids, es, run, n - 1, repo, i);
    } else {
      InflightWasRequested(ids, es, run, n - 1);
      RequestedLater(es, n - 1, |es|);
    }
  }

  /** Every update sent for `repo` replaces only operations that its new one builds on. */
  ghost predicate ClientsAdvance(g: Dag, es: seq<Event>, repo: RepoId) {
    forall u :: Requested(es, |es|, UpdateOpHeads(repo, u)) ==> Advances(g, u)
  }

  ghost predicate ClientsNameOldHeads(es: seq<Event>, repo: RepoId) {
    forall u :: Requested(es, |es|, UpdateOpHeads(repo, u)) ==> u.oldIds != []
  }

  lemma UpdatesAdvance(g: Dag, ids: Ids, es: seq<Event>, run: seq<Sys>, n: nat, repo: RepoId)
    requires n <= |es| && IsRun(ids, es, run) && ClientsAdvance(g, es, repo)
    ensures var us := UpdatesOf(es, run, n, repo); AllAdvance(g, us, |us|)
  {
    var us := UpdatesOf(es, run, n, repo);
    forall i | 0 <= i < |us| ensures Advances(g, us[i]) { UpdateWasRequested(ids, es, run, n, repo, i); }
  }

  lemma UpdatesNameOldHeads(ids: Ids, es: seq<Event>, run: seq<Sys>, n: nat, repo: RepoId)
    requires n <= |es| && IsRun(ids, es, run) && ClientsNameOldHeads(es, repo)
    ensures var us := UpdatesOf(es, run, n, repo); AllNameOldHeads(us, |us|)
  {
    var us := UpdatesOf(es, run, n, repo);
    forall i | 0 <= i < |us| ensures us[i].oldIds != [] { UpdateWasRequested(ids, es, run, n, repo, i); }
  }

  // ---------- The protocol's promises in every interleaving ----------

  /** No work is lost: a head that any read reported is an ancestor of, or equal to, one of the heads
      that any later read reports. */
  lemma SystemCoverage(g: Dag, ids: Ids, es: seq<Event>, run: seq<Sys>, i: nat, m: nat, j: nat, n: nat, repo: RepoId,
                       before: seq<OpId>, after: seq<OpId>, x: OpId)
    requires IsRun(ids, es, run) && ClientsAdvance(g, es, repo) && m <= n
    requires Reports(run, i, m, repo, before) && Reports(run, j, n, repo, after) && x in before
    ensures Covers(g, after, x)
  {
    var us := UpdatesOf(es, run, n, repo);
    ReportedAreNow(ids, es, run, i, m, repo, before);
    ReportedAreNow(ids, es, run, j, n, repo, after);
    ShownIsEverHead(ids, es, run, m, n, repo, x);
    UpdatesAdvance(g, ids, es, run, n, repo);
    Coverage(g, us, |us|, x);
    HeadsProjection(ids, es, run, n, repo);
  }

  /** Without locks the log of a repository is still linear when every update names an old head and
      advances it: every read reports one head, and any two heads ever reported are on one line of
      descent. */
  lemma SystemLinearLog(g: Dag, ids: Ids, es: seq<Event>, run: seq<Sys>, i: nat, m: nat, j: nat, n: nat, repo: RepoId,
                        xs: seq<OpId>, ys: seq<OpId>)
    requires IsRun(ids, es, run) && ClientsAdvance(g, es, repo) && ClientsNameOldHeads(es, repo)
    requires m <= n && Reports(run, i, m, repo, xs) && Reports(run, j, n, repo, ys)
    ensures |xs| == |ys| == 1 && Comparable(g, xs[0], ys[0])
  {
    ReportedAreNow(ids, es, run, i, m, repo, xs);
    ReportedAreNow(ids, es, run, j, n, repo, ys);
    OneHeadNow(ids, es, run, m, repo);
    OneHeadNow(ids, es, run, n, repo);
    var us := UpdatesOf(es, run, n, repo);
    ShownIsEverHead(ids, es, run, m, n, repo, xs[0]);
    ShownIsEverHead(ids, es, run, n, n, repo, ys[0]);
    UpdatesAdvance(g, ids, es, run, n, repo);
    UpdatesNameOldHeads(ids, es, run, n, repo);
    LinearLog(g, us, |us|, xs[0], ys[0]);
  }

  lemma OneHeadNow(ids: Ids, es: seq<Event>, run: seq<Sys>, n: nat, repo: RepoId)
    requires n <= |es| && IsRun(ids, es, run) && ClientsNameOldHeads(es, repo)
    ensures |HeadsNow(run, n, repo)| == 1
  {
    var us := UpdatesOf(es, run, n, repo);
    UpdatesNameOldHeads(ids, es, run, n, repo);
    SingleHead(us, |us|);
    HeadsProjection(ids, es, run, n, repo);
  }

  /** The reply to an update is what a read right after it reports. */
  lemma UpdateReply(ids: Ids, es: seq<Event>, run: seq<Sys>, k: nat, repo: RepoId, u: Update)
    requires k < |es| && IsRun(ids, es, run) && UpdateDone(run[k], es[k], repo) == [u]
    ensures var (t, s) := (es[k].task, run[k + 1]);
      t in s.replies && s.replies[t].0 == UpdateOpHeads(repo, u) && s.replies[t].1.Heads?
      && Reports(run, k + 1, k + 1, repo, s.replies[t].1.ids)
  {
    assert StepTaken(ids, es, run, k);
    ReachableInvariant(ids, es, run, k);
  }

  // ---------- The jj transaction discipline, as clients follow it ----------

  ghost predicate ShownBefore(run: seq<Sys>, n: nat, repo: RepoId, x: OpId)
    requires n < |run|
  {
    exists i: nat, m: nat, heads :: m <= n && Reports(run, i, m, repo, heads) && x in heads
  }

  /** A client sends an update naming old heads only for an operation with exactly those parents,
      each of which some read had reported as a head before. */
  ghost predicate SendsParentsShown(g: Dag, es: seq<Event>, run: seq<Sys>, repo: RepoId)
    requires |es| < |run|
  {
    forall k, u :: 0 <= k < |es| && es[k].Start? && es[k].request == UpdateOpHeads(repo, u) && u.oldIds != [] ==>
      NamesParents(g, u) && forall o :: o in u.oldIds ==> ShownBefore(run, k, repo, o)
  }

  /** An update that names no old head adds an operation unrelated, or equal, to the heads it meets. */
  ghost predicate AddsUnrelated(g: Dag, es: seq<Event>, run: seq<Sys>, repo: RepoId)
    requires |es| < |run|
  {
    forall k, u :: 0 <= k < |es| && UpdateDone(run[k], es[k], repo) == [u] && u.oldIds == [] ==>
      u.newId in HeadsNow(run, k, repo) || Unrelated(g, HeadsNow(run, k, repo), u.newId)
  }

  ghost predicate ClientDiscipline(g: Dag, es: seq<Event>, run: seq<Sys>, repo: RepoId)
    requires |es| < |run|
  {
    Acyclic(g) && SendsParentsShown(g, es, run, repo) && AddsUnrelated(g, es, run, repo)
  }

  lemma EverHeadExtension(us: seq<Update>, more: seq<Update>, n: nat, x: OpId)
    requires n <= |us| && EverHead(us, n, x)
    ensures EverHead(us + more, n, x)
  {
    var m: nat :| m <= n && HeadAt(us, m, x);
    HeadsAtExtension(us, more, m);
    assert HeadAt(us + more, m, x);
  }

  lemma DisciplinedExtension(g: Dag, us: seq<Update>, more: seq<Update>, i: nat)
    requires i < |us| && DisciplinedAt(g, us, i)
    ensures DisciplinedAt(g, us + more, i)
  {
    assert (us + more)[i] == us[i];
    HeadsAtExtension(us, more, i);
    if us[i].oldIds != [] {
      forall o | o in us[i].oldIds ensures EverHead(us + more, i, o) {
        EverHeadExtension(us, more, i, o);
      }
    }
  }

  lemma ShownBeforeIsEverHead(ids: Ids, es: seq<Event>, run: seq<Sys>, k: nat, n: nat, repo: RepoId, x: OpId)
    requires k <= n <= |es| && IsRun(ids, es, run) && ShownBefore(run, k, repo, x)
    ensures var us := UpdatesOf(es, run, n, repo); EverHead(us, |us|, x)
  {
    var i: nat, m: nat, heads :| m <= k && Reports(run, i, m, repo, heads) && x in heads;
    ReportedAreNow(ids, es, run, i, m, repo, heads);
    ShownIsEverHead(ids, es, run, m, n, repo, x);
  }

  /** The old heads of an update were heads before it was sent, so before it is carried out. */
  lemma OldHeadsShown(g: Dag, ids: Ids, es: seq<Event>, run: seq<Sys>, n: nat, repo: RepoId, u: Update, o: OpId)
    requires n < |es| && IsRun(ids, es, run) && SendsParentsShown(g, es, run, repo)
    requires UpdateDone(run[n], es[n], repo) == [u] && u.oldIds != []
    ensures NamesParents(g, u)
    ensures var us := UpdatesOf(es, run, n, repo); o in u.oldIds ==> EverHead(us, |us|, o)
  {
    InflightWasRequested(ids, es, run, n);
    assert Requested(es, n, UpdateOpHeads(repo, u));
    var k: nat :| k < n && es[k].Start? && es[k].request == UpdateOpHeads(repo, u);
    if o in u.oldIds {
      ShownBeforeIsEverHead(ids, es, run, k, n, repo, o);
    }
  }

  /** The update carried out by event `n` obeys the discipline of the update run. */
  lemma LastDisciplined(g: Dag, ids: Ids, es: seq<Event>, run: seq<Sys>, n: nat, repo: RepoId, u: Update)
    requires n < |es| && IsRun(ids, es, run) && ClientDiscipline(g, es, run, repo)
    requires UpdateDone(run[n], es[n], repo) == [u]
    ensures var us := UpdatesOf(es, run, n, repo); DisciplinedAt(g, us + [u], |us|)
  {
    var us := UpdatesOf(es, run, n, repo);
    HeadsProjection(ids, es, run, n, repo);
    HeadsAtExtension(us, [u], |us|);
    if u.oldIds != [] {
      OldHeadsShown(g, ids, es, run, n, repo, u, u.newId);
      forall o | o in u.oldIds ensures EverHead(us + [u], |us|, o) {
        OldHeadsShown(g, ids, es, run, n, repo, u, o);
        EverHeadExtension(us, [u], |us|, o);
      }
    }
  }

  lemma DisciplinedMore(g: Dag, us: seq<Update>, done: seq<Update>)
    requires Disciplined(g, us, |us|) && |done| <= 1
    requires done != [] ==> DisciplinedAt(g, us + done, |us|)
    ensures Disciplined(g, us + done, |us + done|)
  {
    forall i | 0 <= i < |us| ensures DisciplinedAt(g, us + done, i) { DisciplinedExtension(g, us, done, i); }
  }

  lemma {:induction false} UpdatesDisciplined(g: Dag, ids: Ids, es: seq<Event>, run: seq<Sys>, n: nat, repo: RepoId)
    requires n <= |es| && IsRun(ids, es, run) && ClientDiscipline(g, es, run, repo)
    ensures var us := UpdatesOf(es, run, n, repo); Disciplined(g, us, |us|)
  {
    if n == 0 {
    } else {
      var us, done := UpdatesOf(es, run, n - 1, repo), UpdateDone(run[n - 1], es[n - 1], repo);
      UpdatesDisciplined(g, ids, es, run, n - 1, repo);
      if done != [] {
        assert done == [done[0]];
        LastDisciplined(g, ids, es, run, n - 1, repo, done[0]);
      }
      DisciplinedMore(g, us, done);
    }
  }

  lemma AntichainNow(g: Dag, ids: Ids, es: seq<Event>, run: seq<Sys>, n: nat, repo: RepoId)
    requires n <= |es| && IsRun(ids, es, run) && ClientDiscipline(g, es, run, repo)
    ensures Antichain(g, HeadsNow(run, n, repo))
  {
    var us := UpdatesOf(es, run, n, repo);
    UpdatesDisciplined(g, ids, es, run, n, repo);
    HeadsFormAntichain(g, us, |us|);
    HeadsProjection(ids, es, run, n, repo);
  }

  /** Under the discipline no read ever reports a head that is a proper ancestor of another. */
  lemma SystemAntichain(g: Dag, ids: Ids, es: seq<Event>, run: seq<Sys>, i: nat, n: nat, repo: RepoId, heads: seq<OpId>)
    requires IsRun(ids, es, run) && ClientDiscipline(g, es, run, repo) && Reports(run, i, n, repo, heads)
    ensures Antichain(g, heads)
  {
    ReportedAreNow(ids, es, run, i, n, repo, heads);
    AntichainNow(g, ids, es, run, n, repo);
  }

  lemma HeadsAfterUpdate(ids: Ids, es: seq<Event>, run: seq<Sys>, k: nat, repo: RepoId, u: Update)
    requires k < |es| && IsRun(ids, es, run) && UpdateDone(run[k], es[k], repo) == [u]
    ensures HeadsNow(run, k + 1, repo) == UpdatedHeads(HeadsNow(run, k, repo), u)
  {
    assert StepTaken(ids, es, run, k);
    HeadsStep(ids, run[k], es[k], repo);
  }

  /** The heads that an update meets, and those it leaves, are what reads at these moments report. */
  lemma ReportsAroundUpdate(ids: Ids, es: seq<Event>, run: seq<Sys>, k: nat, repo: RepoId, u: Update)
    requires k < |es| && IsRun(ids, es, run) && UpdateDone(run[k], es[k], repo) == [u]
    ensures Reports(run, k, k, repo, HeadsNow(run, k, repo))
    ensures Reports(run, k, k + 1, repo, HeadsNow(run, k + 1, repo))
  {
    ReachableInvariant(ids, es, run, k);
    RegisteredExactly(ids, es, run, k, repo);
    HeadsRead(ids, es, run, k, k, repo);
    HeadsRead(ids, es, run, k, k + 1, repo);
    HeadsProjection(ids, es, run, k, repo);
    HeadsProjection(ids, es, run, k + 1, repo);
  }

  ghost predicate ReadsAntichains(g: Dag, run: seq<Sys>, repo: RepoId) {
    forall i: nat, n: nat, heads :: Reports(run, i, n, repo, heads) ==> Antichain(g, heads)
  }

  /** When clients name exactly the parents, each once reported as a head, the condition on updates
      that name no old head is not only enough but needed: every read reports an antichain if and
      only if every such update meets heads unrelated, or equal, to its operation. */
  lemma SystemAntichainExactly(g: Dag, ids: Ids, es: seq<Event>, run: seq<Sys>, repo: RepoId)
    requires IsRun(ids, es, run) && Acyclic(g) && SendsParentsShown(g, es, run, repo)
    ensures AddsUnrelated(g, es, run, repo) <==> ReadsAntichains(g, run, repo)
  {
    if AddsUnrelated(g, es, run, repo) {
      forall i: nat, n: nat, heads | Reports(run, i, n, repo, heads) ensures Antichain(g, heads) {
        SystemAntichain(g, ids, es, run, i, n, repo, heads);
      }
    }
    if ReadsAntichains(g, run, repo) {
      forall k, u | 0 <= k < |es| && UpdateDone(run[k], es[k], repo) == [u] && u.oldIds == []
        ensures u.newId in HeadsNow(run, k, repo) || Unrelated(g, HeadsNow(run, k, repo), u.newId)
      {
        ReportsAroundUpdate(ids, es, run, k, repo, u);
        HeadsAfterUpdate(ids, es, run, k, repo, u);
        assert u == Update([], u.newId);
        EmptyUpdateKeepsAntichain(g, HeadsNow(run, k, repo), u.newId);
      }
    }
  }

  /** The update of event `m` keeps its position among the updates. */
  lemma UpdateKeepsPosition(es: seq<Event>, run: seq<Sys>, m: nat, n: nat, repo: RepoId, u: Update)
    requires m < n <= |es| < |run| && UpdateDone(run[m], es[m], repo) == [u]
    ensures var us, i := UpdatesOf(es, run, n, repo), |UpdatesOf(es, run, m, repo)|; i < |us| && us[i] == u
  {
    UpdatesGrow(es, run, m + 1, n, repo);
    assert UpdatesOf(es, run, m + 1, repo) == UpdatesOf(es, run, m, repo) + [u];
  }

  lemma ReplayChangesNothing(g: Dag, ids: Ids, es: seq<Event>, run: seq<Sys>, m: nat, n: nat, repo: RepoId, u: Update)
    requires m < n < |es| && IsRun(ids, es, run) && ClientDiscipline(g, es, run, repo)
    requires u.oldIds != [] && UpdateDone(run[m], es[m], repo) == [u]
    requires UpdateDone(run[n], es[n], repo) == [u]
    ensures HeadsNow(run, n + 1, repo) == HeadsNow(run, n, repo)
  {
    var us := UpdatesOf(es, run, n, repo);
    UpdateKeepsPosition(es, run, m, n, repo, u);
    UpdatesDisciplined(g, ids, es, run, n, repo);
    ReplayIsHarmless(g, us, |UpdatesOf(es, run, m, repo)|, |us|);
    HeadsProjection(ids, es, run, n, repo);
    HeadsAfterUpdate(ids, es, run, n, repo, u);
  }

  /** Under the discipline a client may safely repeat an update whose reply it never saw: carried out
      a second time, at any later moment, it leaves what reads report as it was. */
  lemma SystemReplayIsHarmless(g: Dag, ids: Ids, es: seq<Event>, run: seq<Sys>, i: nat, m: nat, n: nat, repo: RepoId,
                               u: Update)
    requires i <= n && m < n < |es| && IsRun(ids, es, run) && ClientDiscipline(g, es, run, repo)
    requires u.oldIds != [] && UpdateDone(run[m], es[m], repo) == [u]
    requires UpdateDone(run[n], es[n], repo) == [u]
    ensures ReadOpHeads(run[i].store, run[n + 1].store, repo) == ReadOpHeads(run[i].store, run[n].store, repo)
  {
    ReplayChangesNothing(g, ids, es, run, m, n, repo, u);
    HeadsRead(ids, es, run, i, n, repo);
    HeadsRead(ids, es, run, i, n + 1, repo);
    HeadsProjection(ids, es, run, n, repo);
    HeadsProjection(ids, es, run, n + 1, repo);
  }
}
