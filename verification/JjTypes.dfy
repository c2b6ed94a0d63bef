/** The jj_lib values that the client converts. A ref target is a merge: a first optional add, then
    pairs of an optional remove and an optional add. */
module JjTypes {
  import opened ByteStrings
  import opened Wrappers

  datatype JjRefTarget = JjRefTarget(first: Option<Bytes>, rest: seq<(Option<Bytes>, Option<Bytes>)>)

  const ABSENT_TARGET: JjRefTarget := JjRefTarget(None, [])

  datatype JjRemoteRefState = New | Tracked

  datatype JjRemoteRef = JjRemoteRef(target: JjRefTarget, state: JjRemoteRefState)

  datatype JjRemoteView = JjRemoteView(bookmarks: map<Bytes, JjRemoteRef>)

  datatype JjView = JjView(
    headIds: set<Bytes>,
    wcCommitIds: map<Bytes, Bytes>,
    localBookmarks: map<Bytes, JjRefTarget>,
    localTags: map<Bytes, JjRefTarget>,
    remoteViews: map<Bytes, JjRemoteView>,
    gitRefs: map<Bytes, JjRefTarget>,
    gitHead: JjRefTarget)

  datatype JjTimestamp = JjTimestamp(millis: i64, tzOffset: int)

  datatype JjMetadata = JjMetadata(
    start: JjTimestamp,
    end: JjTimestamp,
    description: Bytes,
    hostname: Bytes,
    username: Bytes,
    isSnapshot: bool,
    workspaceName: Option<Bytes>,
    attributes: map<Bytes, Bytes>)

  datatype JjOperation = JjOperation(
    viewId: Bytes,
    parents: seq<Bytes>,
    metadata: JjMetadata,
    commitPredecessors: Option<map<Bytes, seq<Bytes>>>)

  // ---------- Terms of a ref target ----------

  function Present(term: Option<Bytes>): seq<Bytes> {
    match term
    case None => []
    case Some(id) => [id]
  }

  function PairRemoves(rest: seq<(Option<Bytes>, Option<Bytes>)>): seq<Bytes> {
    if rest == [] then [] else Present(rest[0].0) + PairRemoves(rest[1..])
  }

  function PairAdds(rest: seq<(Option<Bytes>, Option<Bytes>)>): seq<Bytes> {
    if rest == [] then [] else Present(rest[0].1) + PairAdds(rest[1..])
  }

  /** `removed_ids()`: the removes that are present, in order. */
  function RemovedIds(t: JjRefTarget): seq<Bytes> {
    PairRemoves(t.rest)
  }

  /** `added_ids()`: the adds that are present, in order. */
  function AddedIds(t: JjRefTarget): seq<Bytes> {
    Present(t.first) + PairAdds(t.rest)
  }

  /** The first term is an add; after it removes and adds alternate, and absent ones are skipped. */
  lemma TermsOfPairs(first: Option<Bytes>, rest: seq<(Option<Bytes>, Option<Bytes>)>, r: Option<Bytes>, a: Option<Bytes>)
    ensures var s, t := JjRefTarget(first, rest), JjRefTarget(first, [(r, a)] + rest);
      && RemovedIds(JjRefTarget(first, [])) == [] && AddedIds(JjRefTarget(None, [])) == []
      && (first.Some? ==> AddedIds(JjRefTarget(first, [])) == [first.value])
      && RemovedIds(t) == (if r.Some? then [r.value] else []) + RemovedIds(s)
      && (first.None? ==> AddedIds(t) == (if a.Some? then [a.value] else []) + AddedIds(s))
  {
    assert ([(r, a)] + rest)[1..] == rest;
    assert [] + PairAdds([(r, a)] + rest) == PairAdds([(r, a)] + rest) && [] + PairAdds(rest) == PairAdds(rest);
  }

  ghost predicate SameTerms(s: JjRefTarget, t: JjRefTarget) {
    RemovedIds(s) == RemovedIds(t) && AddedIds(s) == AddedIds(t)
  }

  function First(ids: seq<Bytes>): Option<Bytes> {
    if ids == [] then None else Some(ids[0])
  }

  function Rest(ids: seq<Bytes>): seq<Bytes> {
    if ids == [] then [] else ids[1..]
  }

  function LegacyPairs(removes: seq<Bytes>, adds: seq<Bytes>): seq<(Option<Bytes>, Option<Bytes>)>
    decreases |removes| + |adds|
  {
    if removes == [] && adds == [] then []
    else [(First(removes), First(adds))] + LegacyPairs(Rest(removes), Rest(adds))
  }

  /** `RefTarget::from_legacy_form`, as assumed of jj_lib: the shorter list is padded with absent terms. */
  function FromLegacyForm(removes: seq<Bytes>, adds: seq<Bytes>): JjRefTarget {
    JjRefTarget(First(adds), LegacyPairs(removes, Rest(adds)))
  }

  lemma {:induction false} LegacyPairsTerms(removes: seq<Bytes>, adds: seq<Bytes>)
    ensures PairRemoves(LegacyPairs(removes, adds)) == removes
    ensures PairAdds(LegacyPairs(removes, adds)) == adds
    decreases |removes| + |adds|
  {
    if removes != [] || adds != [] {
      LegacyPairsTerms(Rest(removes), Rest(adds));
      var tail := LegacyPairs(Rest(removes), Rest(adds));
      assert LegacyPairs(removes, adds)[1..] == tail;
      assert Present(First(removes)) + Rest(removes) == removes;
      assert Present(First(adds)) + Rest(adds) == adds;
    }
  }

  lemma LegacyFormTerms(removes: seq<Bytes>, adds: seq<Bytes>)
    ensures RemovedIds(FromLegacyForm(removes, adds)) == removes
    ensures AddedIds(FromLegacyForm(removes, adds)) == adds
  {
    LegacyPairsTerms(removes, Rest(adds));
    assert Present(First(adds)) + Rest(adds) == adds;
  }
}
