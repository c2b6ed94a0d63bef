/** Following references: from the heads that a read reports to their operations, from these to their
    views and parents, down to the built-in root. */
module References {
  import opened ByteStrings
  import opened Wrappers
  import opened OpStoreProto
  import opened OpDag
  import opened OpHeads
  import opened JjTypes
  import opened ClientOpStore
  import opened ClientOperations
  import opened MemoryStores
  import opened Handlers
  import opened Interleaving
  import opened SystemHeads

  // ---------- The built-in root ----------

  const ZEROS: Bytes := [0, 0, 0, 0, 0, 0, 0, 0, 0, 0, 0, 0, 0, 0, 0, 0]

  /** What a client makes of the root operation and view: no parents, the epoch for both times, and
      one head, the root commit of twenty zero bytes. */
  lemma RootValues()
    ensures ROOT_OPERATION_ID == ROOT_VIEW_ID == ROOT_OPERATION.viewId == ZEROS
    ensures ROOT_COMMIT_ID == ZEROS + [0, 0, 0, 0]
    ensures ROOT_OPERATION.metadata.Some? && ROOT_OPERATION.metadata.value.description == [0x72, 0x6f, 0x6f, 0x74, 0x28, 0x29]
    ensures var m := ROOT_OPERATION.metadata.value;
      OperationFromProto(ROOT_OPERATION)
      == JjOperation(ZEROS, [], JjMetadata(JjTimestamp(0, 0), JjTimestamp(0, 0), m.description, [], [], false, None, map[]),
                     Some(map[]))
    ensures ViewFromProto(ROOT_VIEW).headIds == {ZEROS + [0, 0, 0, 0]}
    ensures ViewFromProto(ROOT_VIEW).wcCommitIds == map[] && ViewFromProto(ROOT_VIEW).localBookmarks == map[]
    ensures ViewFromProto(ROOT_VIEW).remoteViews == map[]
  {
    OperationFromProtoExactly(ROOT_OPERATION, 0, []);
    assert PredecessorEntries([]) == [];
    assert RemoteNames(ROOT_VIEW.remoteBookmarks) == {};
  }

  /** In a registered repository where nothing was stored under the root ids, the root operation and
      the root view that it names are read. */
  lemma RootReadable(ids: Ids, es: seq<Event>, run: seq<Sys>, i: nat, j: nat, repo: RepoId)
    requires i <= j <= |es| && IsRun(ids, es, run) && RegisteredBy(es, i, repo)
    ensures ReadOperation(run[i].store, run[j].store, repo, ZEROS).Found?
    ensures ReadView(run[i].store, run[j].store, repo, ZEROS).Found?
    ensures Get(run[j].store.ops, repo, ZEROS).None? ==>
              ReadOperation(run[i].store, run[j].store, repo, ZEROS) == Found(ROOT_OPERATION)
    ensures Get(run[j].store.views, repo, ZEROS).None? ==>
              ReadView(run[i].store, run[j].store, repo, ZEROS) == Found(ROOT_VIEW)
  {
    RootValues();
    OperationReadOrigin(ids, es, run, i, j, repo, ZEROS);
    ViewReadOrigin(ids, es, run, i, j, repo, ZEROS);
  }

  // ---------- Clients name only what was written ----------

  ghost predicate OperationKnown(run: seq<Sys>, k: nat, repo: RepoId, id: Bytes) {
    id == ROOT_OPERATION_ID
    || exists m: nat, t, op :: m <= k && m < |run| && Answered(run, m, t, WriteOperation(repo, Some(op)), id)
  }

  ghost predicate ViewKnown(run: seq<Sys>, k: nat, repo: RepoId, id: Bytes) {
    id == ROOT_VIEW_ID
    || exists m: nat, t, v :: m <= k && m < |run| && Answered(run, m, t, WriteView(repo, Some(v)), id)
  }

  /** A request names only ids that are built in or had been answered by a write before. */
  ghost predicate NamesKnown(run: seq<Sys>, k: nat, r: Request) {
    match r
    case UpdateOpHeads(repo, u) => OperationKnown(run, k, repo, u.newId)
    case WriteOperation(repo, Some(op)) =>
      ViewKnown(run, k, repo, op.viewId) && forall p :: p in op.parents ==> OperationKnown(run, k, repo, p)
    case _ => true
  }

  ghost predicate ClientsNameKnown(es: seq<Event>, run: seq<Sys>, repo: RepoId) {
    forall k :: 0 <= k < |es| && es[k].Start? && es[k].request.repo == repo ==> NamesKnown(run, k, es[k].request)
  }

  lemma OperationKnownLater(run: seq<Sys>, k: nat, n: nat, repo: RepoId, id: Bytes)
    requires k <= n && OperationKnown(run, k, repo, id)
    ensures OperationKnown(run, n, repo, id)
  {
  }

  /** A known operation can be read in every later state of a registered repository. */
  lemma KnownOperationReadable(ids: Ids, es: seq<Event>, run: seq<Sys>, k: nat, i: nat, j: nat, repo: RepoId, id: Bytes)
    requires k <= j && i <= j <= |es| && IsRun(ids, es, run) && RegisteredBy(es, i, repo)
    requires OperationKnown(run, k, repo, id)
    ensures ReadOperation(run[i].store, run[j].store, repo, id).Found?
  {
    OperationReadOrigin(ids, es, run, i, j, repo, id);
    if id != ROOT_OPERATION_ID {
      var m: nat, t, op :| m <= k && m < |run| && Answered(run, m, t, WriteOperation(repo, Some(op)), id);
      AnsweredIsStored(ids, es, run, m, j, t, WriteOperation(repo, Some(op)), id);
    }
  }

  lemma KnownViewReadable(ids: Ids, es: seq<Event>, run: seq<Sys>, k: nat, i: nat, j: nat, repo: RepoId, id: Bytes)
    requires k <= j && i <= j <= |es| && IsRun(ids, es, run) && RegisteredBy(es, i, repo)
    requires ViewKnown(run, k, repo, id)
    ensures ReadView(run[i].store, run[j].store, repo, id).Found?
  {
    ViewReadOrigin(ids, es, run, i, j, repo, id);
    if id != ROOT_VIEW_ID {
      var m: nat, t, v :| m <= k && m < |run| && Answered(run, m, t, WriteView(repo, Some(v)), id);
      AnsweredIsStored(ids, es, run, m, j, t, WriteView(repo, Some(v)), id);
    }
  }

  /** A request in flight names only what was known when it was sent. */
  lemma RequestNamesKnown(es: seq<Event>, run: seq<Sys>, n: nat, r: Request)
    requires n <= |es| && ClientsNameKnown(es, run, r.repo) && Requested(es, n, r)
    ensures exists k: nat :: k < n && NamesKnown(run, k, r)
  {
    var k: nat :| k < n && es[k].Start? && es[k].request == r;
    assert NamesKnown(run, k, r);
  }

  /** A head that was none before event `n` is the new operation of an update that had been sent. */
  lemma NewHeadSent(ids: Ids, es: seq<Event>, run: seq<Sys>, n: nat, repo: RepoId, x: OpId) returns (u: Update)
    requires n < |es| && IsRun(ids, es, run)
    requires x in HeadsNow(run, n + 1, repo) && x !in HeadsNow(run, n, repo)
    ensures u.newId == x && Requested(es, n, UpdateOpHeads(repo, u))
  {
    var done := UpdateDone(run[n], es[n], repo);
    assert StepTaken(ids, es, run, n);
    HeadsStep(ids, run[n], es[n], repo);
    u := done[0];
    UpdatedHeadsSetForm(HeadsNow(run, n, repo), u);
    InflightWasRequested(ids, es, run, n);
  }

  /** Every head is known. */
  lemma {:induction false} HeadsKnown(ids: Ids, es: seq<Event>, run: seq<Sys>, n: nat, repo: RepoId, x: OpId)
    requires n <= |es| && IsRun(ids, es, run) && ClientsNameKnown(es, run, repo) && x in HeadsNow(run, n, repo)
    ensures OperationKnown(run, n, repo, x)
  {
    HeadsProjection(ids, es, run, n, repo);
    if n == 0 {
      assert x == ROOT_OPERATION_ID;
    } else {
      if x in HeadsNow(run, n - 1, repo) {
        HeadsKnown(ids, es, run, n - 1, repo, x);
        OperationKnownLater(run, n - 1, n, repo, x);
      } else {
        var u := NewHeadSent(ids, es, run, n - 1, repo, x);
        RequestNamesKnown(es, run, n - 1, UpdateOpHeads(repo, u));
        var k: nat :| k < n - 1 && NamesKnown(run, k, UpdateOpHeads(repo, u));
        OperationKnownLater(run, k, n, repo, x);
      }
    }
  }

  // ---------- No reference dangles ----------

  /** Every head that a read reports can be read as an operation at any later time. */
  lemma HeadsReadable(ids: Ids, es: seq<Event>, run: seq<Sys>, i: nat, n: nat, i': nat, j: nat, repo: RepoId,
                      heads: seq<OpId>, x: OpId)
    requires IsRun(ids, es, run) && ClientsNameKnown(es, run, repo)
    requires Reports(run, i, n, repo, heads) && x in heads
    requires n <= j && i' <= j <= |es| && RegisteredBy(es, i', repo)
    ensures ReadOperation(run[i'].store, run[j].store, repo, x).Found?
  {
    ReportedAreNow(ids, es, run, i, n, repo, heads);
    HeadsKnown(ids, es, run, n, repo, x);
    KnownOperationReadable(ids, es, run, n, i', j, repo, x);
  }

  /** Every operation that is read has its view and its parents readable from then on; so a client
      that starts from the heads can always go on to the views and all the way to the root. */
  lemma OperationReferencesReadable(ids: Ids, es: seq<Event>, run: seq<Sys>, i: nat, n: nat, i': nat, j: nat,
                                    repo: RepoId, id: Bytes)
    requires i <= n <= |es| && IsRun(ids, es, run) && ClientsNameKnown(es, run, repo)
    requires ReadOperation(run[i].store, run[n].store, repo, id).Found?
    requires n <= j && i' <= j <= |es| && RegisteredBy(es, i', repo)
    ensures var op := ReadOperation(run[i].store, run[n].store, repo, id).value;
      && ReadView(run[i'].store, run[j].store, repo, op.viewId).Found?
      && forall p :: p in op.parents ==> ReadOperation(run[i'].store, run[j].store, repo, p).Found?
  {
    var op := ReadOperation(run[i].store, run[n].store, repo, id).value;
    OperationReadOrigin(ids, es, run, i, n, repo, id);
    if op == ROOT_OPERATION {
      KnownViewReadable(ids, es, run, 0, i', j, repo, op.viewId);
    } else {
      RequestNamesKnown(es, run, n, WriteOperation(repo, Some(op)));
      var k: nat :| k < n && NamesKnown(run, k, WriteOperation(repo, Some(op)));
      KnownViewReadable(ids, es, run, k, i', j, repo, op.viewId);
      forall p | p in op.parents ensures ReadOperation(run[i'].store, run[j].store, repo, p).Found? {
        KnownOperationReadable(ids, es, run, k, i', j, repo, p);
      }
    }
  }
}
