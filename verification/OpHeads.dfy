/** The op-heads protocol: any number of clients, no lock, each replacing the heads it read by its
    own new operation. One update is one atomic step, so a run is a sequence of updates. */
module OpHeads {
  import opened ByteStrings
  import opened Sorting
  import opened OpDag
  import opened OpStoreProto

  datatype Update = Update(oldIds: seq<OpId>, newId: OpId)

  // ---------- One update ----------

  /** `retain` with the negated membership test. */
  function Retain(heads: seq<OpId>, drop: seq<OpId>): seq<OpId> {
    if heads == [] then []
    else (if heads[0] in drop then [] else [heads[0]]) + Retain(heads[1..], drop)
  }

  predicate Meets(heads: seq<OpId>, ids: seq<OpId>) {
    exists h :: h in heads && h in ids
  }

  function PushNew(heads: seq<OpId>, id: OpId): seq<OpId> {
    if id in heads then heads else heads + [id]
  }

  function UpdatedHeads(heads: seq<OpId>, u: Update): seq<OpId> {
    if u.oldIds == [] then PushNew(heads, u.newId)
    else if Meets(heads, u.oldIds) then PushNew(Retain(heads, u.oldIds), u.newId)
    else heads
  }

  /** The update takes effect: it names no old head, or one that is current. */
  predicate Effective(heads: seq<OpId>, u: Update) {
    u.oldIds == [] || Meets(heads, u.oldIds)
  }

  lemma {:induction false} RetainSpec(heads: seq<OpId>, drop: seq<OpId>)
    ensures forall x :: x in Retain(heads, drop) <==> x in heads && x !in drop
    ensures |Retain(heads, drop)| <= |heads|
    ensures Meets(heads, drop) <==> |Retain(heads, drop)| < |heads|
    ensures !Meets(heads, drop) ==> Retain(heads, drop) == heads
    ensures Distinct(heads) ==> Distinct(Retain(heads, drop))
  {
    if heads == [] {
    } else {
      var rest := heads[1..];
      RetainSpec(rest, drop);
      assert heads == [heads[0]] + rest;
      assert Meets(heads, drop) <==> heads[0] in drop || Meets(rest, drop);
    }
  }

  /** The list code refines the set form: survivors keep their order and the new operation is last. */
  lemma UpdatedHeadsSetForm(heads: seq<OpId>, u: Update)
    ensures forall x :: x in UpdatedHeads(heads, u) <==>
              if Effective(heads, u) then (x in heads && x !in u.oldIds) || x == u.newId else x in heads
    ensures Effective(heads, u) ==>
              UpdatedHeads(heads, u) == Retain(heads, u.oldIds)
              || UpdatedHeads(heads, u) == Retain(heads, u.oldIds) + [u.newId]
    ensures Distinct(heads) ==> Distinct(UpdatedHeads(heads, u))
  {
    RetainSpec(heads, u.oldIds);
    assert u.oldIds == [] ==> !Meets(heads, u.oldIds);
  }

  lemma {:induction false} RetainOrder(heads: seq<OpId>, drop: seq<OpId>, i: nat, j: nat) returns (i': nat, j': nat)
    requires i < j < |Retain(heads, drop)|
    ensures i' < j' < |heads| && heads[i'] == Retain(heads, drop)[i] && heads[j'] == Retain(heads, drop)[j]
  {
    var skip := if heads[0] in drop then 0 else 1;
    if i >= skip {
      i', j' := RetainOrder(heads[1..], drop, i - skip, j - skip);
      i', j' := i' + 1, j' + 1;
    } else {
      RetainSpec(heads[1..], drop);
      assert Retain(heads, drop)[j] == Retain(heads[1..], drop)[j - 1];
      assert Retain(heads, drop)[j] in heads[1..];
      var k :| 0 <= k < |heads[1..]| && heads[1..][k] == Retain(heads, drop)[j];
      i', j' := 0, k + 1;
    }
  }

  /** Exactly when an operation is a head after its own update. The comment on the source method
      promises that concurrent siblings are preserved; a sibling whose old ids have all been
      replaced meanwhile is dropped instead. */
  lemma NewHeadAdmitted(heads: seq<OpId>, u: Update)
    ensures u.newId in UpdatedHeads(heads, u) <==> Effective(heads, u) || u.newId in heads
  {
    UpdatedHeadsSetForm(heads, u);
  }

  // ---------- Runs ----------

  const DEFAULT_HEADS: seq<OpId> := [ROOT_OPERATION_ID]

  /** The heads after the first `n` updates of the run `us`. */
  function HeadsAt(us: seq<Update>, n: nat): seq<OpId>
    requires n <= |us|
  {
    if n == 0 then DEFAULT_HEADS else UpdatedHeads(HeadsAt(us, n - 1), us[n - 1])
  }

  predicate HeadAt(us: seq<Update>, n: nat, x: OpId)
    requires n <= |us|
  {
    x in HeadsAt(us, n)
  }

  /** `x` was a head at some time up to `n`. */
  ghost predicate EverHead(us: seq<Update>, n: nat, x: OpId)
    requires n <= |us|
  {
    exists m: nat :: m <= n && HeadAt(us, m, x)
  }

  function EmptyOldUpdates(us: seq<Update>, n: nat): nat
    requires n <= |us|
  {
    if n == 0 then 0 else EmptyOldUpdates(us, n - 1) + if us[n - 1].oldIds == [] then 1 else 0
  }

  lemma UpdateCount(heads: seq<OpId>, u: Update)
    requires heads != [] && Distinct(heads)
    ensures 1 <= |UpdatedHeads(heads, u)| <= |heads| + if u.oldIds == [] then 1 else 0
    ensures Distinct(UpdatedHeads(heads, u))
  {
    RetainSpec(heads, u.oldIds);
    UpdatedHeadsSetForm(heads, u);
  }

  /** Heads are never lost and never multiply except by updates that name no old head. */
  lemma {:induction false} HeadCountBounds(us: seq<Update>, n: nat)
    requires n <= |us|
    ensures 1 <= |HeadsAt(us, n)| <= 1 + EmptyOldUpdates(us, n)
    ensures Distinct(HeadsAt(us, n))
  {
    if n == 0 {
    } else {
      HeadCountBounds(us, n - 1);
      UpdateCount(HeadsAt(us, n - 1), us[n - 1]);
    }
  }

  /** Later updates do not change earlier heads. */
  lemma {:induction false} HeadsAtExtension(us: seq<Update>, more: seq<Update>, n: nat)
    requires n <= |us|
    ensures HeadsAt(us + more, n) == HeadsAt(us, n)
  {
    if n == 0 {
    } else {
      HeadsAtExtension(us, more, n - 1);
      assert (us + more)[n - 1] == us[n - 1];
    }
  }

  // ---------- Coverage ----------

  ghost predicate Covers(g: Dag, heads: seq<OpId>, x: OpId) {
    exists h :: h in heads && AncestorOrEqual(g, x, h)
  }

  /** Old ids are proper ancestors of the new operation: the client replaces what it built on. */
  ghost predicate Advances(g: Dag, u: Update) {
    forall o :: o in u.oldIds ==> ProperAncestor(g, o, u.newId)
  }

  ghost predicate AllAdvance(g: Dag, us: seq<Update>, n: nat)
    requires n <= |us|
  {
    forall i :: 0 <= i < n ==> Advances(g, us[i])
  }

  lemma CoverageStep(g: Dag, heads: seq<OpId>, u: Update, x: OpId)
    requires Advances(g, u) && Covers(g, heads, x)
    ensures Covers(g, UpdatedHeads(heads, u), x)
  {
    UpdatedHeadsSetForm(heads, u);
    var h :| h in heads && AncestorOrEqual(g, x, h);
    if h !in UpdatedHeads(heads, u) {
      AncestorTransitive(g, x, h, u.newId);
      assert u.newId in UpdatedHeads(heads, u);
    }
  }

  /** No work is lost: whatever was once a head is an ancestor of, or equal to, a current head. */
  lemma {:induction false} Coverage(g: Dag, us: seq<Update>, n: nat, x: OpId)
    requires n <= |us| && AllAdvance(g, us, n) && EverHead(us, n, x)
    ensures Covers(g, HeadsAt(us, n), x)
  {
    if !HeadAt(us, n, x) {
      assert EverHead(us, n - 1, x);
      Coverage(g, us, n - 1, x);
      CoverageStep(g, HeadsAt(us, n - 1), us[n - 1], x);
    }
  }

  // ---------- A linear log without locks ----------

  ghost predicate Comparable(g: Dag, x: OpId, y: OpId) {
    x == y || ProperAncestor(g, x, y) || ProperAncestor(g, y, x)
  }

  predicate AllNameOldHeads(us: seq<Update>, n: nat)
    requires n <= |us|
  {
    forall i :: 0 <= i < n ==> us[i].oldIds != []
  }

  lemma {:induction false} SingleHead(us: seq<Update>, n: nat)
    requires n <= |us| && AllNameOldHeads(us, n)
    ensures EmptyOldUpdates(us, n) == 0 && |HeadsAt(us, n)| == 1
  {
    HeadCountBounds(us, n);
    if n == 0 {
    } else {
      SingleHead(us, n - 1);
    }
  }

  lemma CoveredByOnlyHead(g: Dag, us: seq<Update>, n: nat, x: OpId, h: OpId)
    requires n <= |us| && AllAdvance(g, us, n) && AllNameOldHeads(us, n)
    requires EverHead(us, n, x) && HeadAt(us, n, h)
    ensures AncestorOrEqual(g, x, h)
  {
    SingleHead(us, n);
    Coverage(g, us, n, x);
    var top :| top in HeadsAt(us, n) && AncestorOrEqual(g, x, top);
    assert top == h;
  }

  /** When every update names an old head and advances it, there is exactly one head, and the
      operations that were ever head form one line of descent. */
  lemma {:induction false} LinearLog(g: Dag, us: seq<Update>, n: nat, x: OpId, y: OpId)
    requires n <= |us| && AllAdvance(g, us, n) && AllNameOldHeads(us, n)
    requires EverHead(us, n, x) && EverHead(us, n, y)
    ensures |HeadsAt(us, n)| == 1 && Comparable(g, x, y)
  {
    SingleHead(us, n);
    if HeadAt(us, n, x) {
      CoveredByOnlyHead(g, us, n, y, x);
    } else if HeadAt(us, n, y) {
      CoveredByOnlyHead(g, us, n, x, y);
    } else {
      assert EverHead(us, n - 1, x) && EverHead(us, n - 1, y);
      LinearLog(g, us, n - 1, x, y);
    }
  }

  // ---------- The client discipline of jj transactions ----------

  ghost predicate NamesParents(g: Dag, u: Update) {
    u.newId in g && forall o :: o in u.oldIds <==> o in g[u.newId]
  }

  ghost predicate Unrelated(g: Dag, heads: seq<OpId>, x: OpId) {
    forall h :: h in heads ==> !ProperAncestor(g, h, x) && !ProperAncestor(g, x, h)
  }

  /** A non-empty update names exactly the parents of its operation, all once heads; an update
      naming no old head adds an operation unrelated, or equal, to the current heads. */
  ghost predicate DisciplinedAt(g: Dag, us: seq<Update>, n: nat)
    requires n < |us|
  {
    if us[n].oldIds == [] then
      HeadAt(us, n, us[n].newId) || Unrelated(g, HeadsAt(us, n), us[n].newId)
    else
      NamesParents(g, us[n]) && forall o :: o in us[n].oldIds ==> EverHead(us, n, o)
  }

  ghost predicate Disciplined(g: Dag, us: seq<Update>, n: nat)
    requires n <= |us|
  {
    forall i :: 0 <= i < n ==> DisciplinedAt(g, us, i)
  }

  ghost predicate Antichain(g: Dag, heads: seq<OpId>) {
    forall a, b :: a in heads && b in heads ==> !ProperAncestor(g, a, b)
  }

  lemma DisciplinedAdvances(g: Dag, us: seq<Update>, n: nat)
    requires n <= |us| && Disciplined(g, us, n)
    ensures AllAdvance(g, us, n)
  {
    forall i, o | 0 <= i < n && o in us[i].oldIds ensures ProperAncestor(g, o, us[i].newId) {
      assert DisciplinedAt(g, us, i);
      ParentIsAncestor(g, o, us[i].newId);
    }
  }

  /** The new operation of an effective update is unrelated to every surviving head. */
  lemma NewHeadUnrelated(g: Dag, us: seq<Update>, n: nat, h: OpId)
    requires Acyclic(g) && n < |us| && Disciplined(g, us, n + 1) && us[n].oldIds != []
    requires Antichain(g, HeadsAt(us, n)) && Meets(HeadsAt(us, n), us[n].oldIds)
    requires HeadAt(us, n, h) && h !in us[n].oldIds
    ensures !ProperAncestor(g, h, us[n].newId) && !ProperAncestor(g, us[n].newId, h)
  {
    var heads, u := HeadsAt(us, n), us[n];
    assert DisciplinedAt(g, us, n);
    if ProperAncestor(g, u.newId, h) {
      var r :| r in heads && r in u.oldIds;
      ParentIsAncestor(g, r, u.newId);
      AncestorTransitive(g, r, u.newId, h);
    }
    if ProperAncestor(g, h, u.newId) {
      var p := AncestorThroughParent(g, h, u.newId);
      assert p in u.oldIds;
      DisciplinedAdvances(g, us, n);
      Coverage(g, us, n, p);
      var top :| top in heads && AncestorOrEqual(g, p, top);
      AncestorTransitive(g, h, p, top);
    }
  }

  lemma AntichainExtended(g: Dag, heads: seq<OpId>, after: seq<OpId>, x: OpId)
    requires Acyclic(g) && Antichain(g, heads)
    requires forall a :: a in after && a != x ==>
               a in heads && !ProperAncestor(g, a, x) && !ProperAncestor(g, x, a)
    ensures Antichain(g, after)
  {
  }

  lemma AntichainStep(g: Dag, us: seq<Update>, n: nat)
    requires n < |us| && Acyclic(g) && Disciplined(g, us, n + 1) && Antichain(g, HeadsAt(us, n))
    ensures Antichain(g, UpdatedHeads(HeadsAt(us, n), us[n]))
  {
    var heads, u := HeadsAt(us, n), us[n];
    assert DisciplinedAt(g, us, n);
    if u.oldIds == [] {
      if u.newId !in heads { AntichainExtended(g, heads, heads + [u.newId], u.newId); }
    } else if Meets(heads, u.oldIds) {
      var after := UpdatedHeads(heads, u);
      UpdatedHeadsSetForm(heads, u);
      forall a | a in after && a != u.newId
        ensures a in heads && !ProperAncestor(g, a, u.newId) && !ProperAncestor(g, u.newId, a)
      {
        NewHeadUnrelated(g, us, n, a);
      }
      AntichainExtended(g, heads, after, u.newId);
    }
  }

  /** Under the discipline no head is ever a proper ancestor of a head. */
  lemma {:induction false} HeadsFormAntichain(g: Dag, us: seq<Update>, n: nat)
    requires n <= |us| && Acyclic(g) && Disciplined(g, us, n)
    ensures Antichain(g, HeadsAt(us, n))
  {
    if n == 0 {
    } else {
      HeadsFormAntichain(g, us, n - 1);
      AntichainStep(g, us, n - 1);
    }
  }

  // ---------- Superseded operations stay superseded ----------

  /** An operation with a proper descendant that was once a head is not a head. */
  lemma SupersededIsNoHead(g: Dag, us: seq<Update>, n: nat, o: OpId, d: OpId)
    requires n <= |us| && Acyclic(g) && Disciplined(g, us, n)
    requires ProperAncestor(g, o, d) && EverHead(us, n, d)
    ensures !HeadAt(us, n, o)
  {
    DisciplinedAdvances(g, us, n);
    Coverage(g, us, n, d);
    HeadsFormAntichain(g, us, n);
    var h :| h in HeadsAt(us, n) && AncestorOrEqual(g, d, h);
    AncestorTransitive(g, o, d, h);
  }

  /** A once-head that is a head no more never becomes one again. */
  lemma RetiredStaysRetired(g: Dag, us: seq<Update>, m: nat, n: nat, o: OpId)
    requires m <= n <= |us| && Acyclic(g) && Disciplined(g, us, n)
    requires EverHead(us, m, o) && !HeadAt(us, m, o)
    ensures !HeadAt(us, n, o)
  {
    DisciplinedAdvances(g, us, m);
    Coverage(g, us, m, o);
    var h :| h in HeadsAt(us, m) && AncestorOrEqual(g, o, h);
    assert HeadAt(us, m, h);
    SupersededIsNoHead(g, us, n, o, h);
  }

  lemma RemovedAtOnce(g: Dag, us: seq<Update>, m: nat, o: OpId)
    requires m < |us| && Acyclic(g) && Disciplined(g, us, m + 1)
    requires HeadAt(us, m, o) && o in us[m].oldIds
    ensures !HeadAt(us, m + 1, o) && EverHead(us, m + 1, o)
  {
    UpdatedHeadsSetForm(HeadsAt(us, m), us[m]);
    DisciplinedAdvances(g, us, m + 1);
    assert Advances(g, us[m]);
  }

  /** An operation removed by a non-empty update never returns, whatever disciplined updates follow. */
  lemma RemovedNeverReturns(g: Dag, us: seq<Update>, m: nat, n: nat, o: OpId)
    requires m < n <= |us| && Acyclic(g) && Disciplined(g, us, n)
    requires HeadAt(us, m, o) && o in us[m].oldIds
    ensures !HeadAt(us, n, o)
  {
    RemovedAtOnce(g, us, m, o);
    RetiredStaysRetired(g, us, m + 1, n, o);
  }

  /** Resubmitting a non-empty update at any later time changes nothing, whether it took effect
      the first time or was already stale then. */
  lemma ReplayIsHarmless(g: Dag, us: seq<Update>, m: nat, n: nat)
    requires m < n <= |us| && Acyclic(g) && Disciplined(g, us, n) && us[m].oldIds != []
    ensures UpdatedHeads(HeadsAt(us, n), us[m]) == HeadsAt(us, n)
  {
    assert DisciplinedAt(g, us, m);
    forall o | o in us[m].oldIds ensures !HeadAt(us, n, o) {
      if HeadAt(us, m, o) {
        RemovedNeverReturns(g, us, m, n, o);
      } else {
        RetiredStaysRetired(g, us, m, n, o);
      }
    }
    assert !Meets(HeadsAt(us, n), us[m].oldIds);
  }

  // ---------- Why the hypotheses are needed ----------

  /** An update that names no old head keeps the antichain exactly when its operation is a head
      already, or unrelated to every head it meets when it is carried out. */
  lemma EmptyUpdateKeepsAntichain(g: Dag, heads: seq<OpId>, x: OpId)
    requires Acyclic(g) && Antichain(g, heads)
    ensures Antichain(g, UpdatedHeads(heads, Update([], x))) <==> x in heads || Unrelated(g, heads, x)
  {
    var after := UpdatedHeads(heads, Update([], x));
    if x !in heads {
      assert x in after && forall h :: h in heads ==> h in after;
      if Unrelated(g, heads, x) { AntichainExtended(g, heads, after, x); }
    }
  }

  /** So such an update can bring a retired operation back, if another client's update comes first:
      the root was the only head when this one was sent. */
  lemma EmptyUpdateRevivesRetired(b: OpId)
    requires b != ROOT_OPERATION_ID
    ensures var us := [Update([ROOT_OPERATION_ID], b), Update([], ROOT_OPERATION_ID)];
      HeadsAt(us, 1) == [b] && HeadsAt(us, 2) == [b, ROOT_OPERATION_ID]
      && ProperAncestor(map[b := [ROOT_OPERATION_ID]], ROOT_OPERATION_ID, b)
  {
    var us := [Update([ROOT_OPERATION_ID], b), Update([], ROOT_OPERATION_ID)];
    ReplacesRoot(us[0]);
    assert HeadsAt(us, 1) == [b];
    ParentIsAncestor(map[b := [ROOT_OPERATION_ID]], ROOT_OPERATION_ID, b);
  }

  lemma ReplacesRoot(u: Update)
    requires u.oldIds == [ROOT_OPERATION_ID]
    ensures UpdatedHeads(DEFAULT_HEADS, u) == [u.newId]
  {
    var heads := DEFAULT_HEADS;
    assert heads[0] in u.oldIds;
    assert Retain(heads, u.oldIds) == [];
  }

  /** Two clients that read the same head: the second one's operation never becomes a head. */
  lemma ConcurrentSiblingDropped(a: OpId, b: OpId)
    requires a != ROOT_OPERATION_ID
    ensures HeadsAt([Update([ROOT_OPERATION_ID], a), Update([ROOT_OPERATION_ID], b)], 2) == [a]
  {
    var us := [Update([ROOT_OPERATION_ID], a), Update([ROOT_OPERATION_ID], b)];
    ReplacesRoot(us[0]);
    assert HeadsAt(us, 1) == [a];
  }

  function Id(tag: byte): OpId { [tag] }

  function BrokenDag(): Dag {
    map[Id(1) := [ROOT_OPERATION_ID], Id(2) := [Id(3)], Id(4) := [Id(1), Id(2)]]
  }

  function BrokenRun(): seq<Update> {
    [Update([ROOT_OPERATION_ID], Id(1)), Update([], Id(3)), Update([Id(1), Id(2)], Id(4))]
  }

  /** Naming a parent that was never a head breaks the antichain, even in an acyclic graph and with
      all else disciplined: `Id(2)` never became a head, and an operation built on it ends up beside
      its own grandparent `Id(3)`. */
  lemma UnheadedParentBreaksAntichain()
    ensures Acyclic(BrokenDag()) && Disciplined(BrokenDag(), BrokenRun(), 2)
    ensures NamesParents(BrokenDag(), BrokenRun()[2])
    ensures forall o :: o in BrokenRun()[2].oldIds ==> o == Id(2) || EverHead(BrokenRun(), 2, o)
    ensures !EverHead(BrokenRun(), 2, Id(2))
    ensures HeadsAt(BrokenRun(), 3) == [Id(3), Id(4)]
    ensures ProperAncestor(BrokenDag(), Id(3), Id(4))
  {
    BrokenRunHeads();
    BrokenRunParents();
    ReplacesFirst(Id(1), Id(3), BrokenRun()[2]);
    BrokenDagDescent();
    BrokenDagAcyclic();
    BrokenRunDisciplined();
  }

  lemma BrokenRunParents()
    ensures EverHead(BrokenRun(), 2, Id(1)) && !EverHead(BrokenRun(), 2, Id(2))
  {
    BrokenRunHeads();
    assert HeadAt(BrokenRun(), 1, Id(1));
  }

  lemma BrokenRunHeads()
    ensures HeadsAt(BrokenRun(), 0) == [ROOT_OPERATION_ID]
    ensures HeadsAt(BrokenRun(), 1) == [Id(1)]
    ensures HeadsAt(BrokenRun(), 2) == [Id(1), Id(3)]
  {
    ReplacesRoot(BrokenRun()[0]);
  }

  function BrokenRank(x: OpId): nat {
    if x == Id(4) then 2 else if x == Id(1) || x == Id(2) then 1 else 0
  }

  lemma BrokenDagAcyclic()
    ensures Acyclic(BrokenDag())
  {
    AcyclicByRank(BrokenDag(), BrokenRank);
  }

  lemma BrokenRunDisciplined()
    ensures Disciplined(BrokenDag(), BrokenRun(), 2)
  {
    var g, us := BrokenDag(), BrokenRun();
    BrokenRunHeads();
    assert HeadAt(us, 0, ROOT_OPERATION_ID);
    assert DisciplinedAt(g, us, 0);
    BrokenDagUnrelated();
    assert Unrelated(g, [Id(1)], Id(3));
    assert DisciplinedAt(g, us, 1);
  }

  lemma BrokenDagUnrelated()
    ensures !ProperAncestor(BrokenDag(), Id(1), Id(3)) && !ProperAncestor(BrokenDag(), Id(3), Id(1))
  {
    var g := BrokenDag();
    if ProperAncestor(g, Id(1), Id(3)) { var p := AncestorThroughParent(g, Id(1), Id(3)); }
    if ProperAncestor(g, Id(3), Id(1)) {
      var p := AncestorThroughParent(g, Id(3), Id(1));
      var q := AncestorThroughParent(g, Id(3), p);
    }
  }

  lemma ReplacesFirst(a: OpId, b: OpId, u: Update)
    requires a in u.oldIds && b !in u.oldIds && u.newId != b
    ensures UpdatedHeads([a, b], u) == [b, u.newId]
  {
    var heads := [a, b];
    assert heads[0] in u.oldIds;
    assert heads[1..] == [b] && [b][1..] == [];
    assert Retain([b], u.oldIds) == [b];
    assert Retain(heads, u.oldIds) == [b];
  }

  lemma BrokenDagDescent()
    ensures ProperAncestor(BrokenDag(), Id(3), Id(4))
  {
    ParentIsAncestor(BrokenDag(), Id(3), Id(2));
    ParentIsAncestor(BrokenDag(), Id(2), Id(4));
    AncestorTransitive(BrokenDag(), Id(3), Id(2), Id(4));
  }
}
