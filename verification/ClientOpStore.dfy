/** Conversions between jj values and op_store messages, and the `bookmark@remote` keys. */
module ClientOpStore {
  import opened ByteStrings
  import opened Wrappers
  import opened Sorting
  import opened OpStoreProto
  import opened JjTypes

  // ---------- Ref targets ----------

  function RefTargetToProto(t: JjRefTarget): RefTarget {
    RefTarget(RemovedIds(t), AddedIds(t))
  }

  function RefTargetFromProto(t: RefTarget): JjRefTarget {
    FromLegacyForm(t.removes, t.adds)
  }

  lemma RefTargetStable(t: RefTarget)
    ensures RefTargetToProto(RefTargetFromProto(t)) == t
    ensures RemovedIds(RefTargetFromProto(t)) == t.removes && AddedIds(RefTargetFromProto(t)) == t.adds
  {
    LegacyFormTerms(t.removes, t.adds);
  }

  lemma RefTargetRecovered(t: JjRefTarget)
    ensures SameTerms(RefTargetFromProto(RefTargetToProto(t)), t)
  {
    LegacyFormTerms(RemovedIds(t), AddedIds(t));
  }

  // ---------- bookmark@remote ----------

  const AT: byte := 0x40

  /** `format!("{}@{}", bookmark, remote)` */
  function RemoteKey(bookmark: Bytes, remote: Bytes): Bytes {
    bookmark + [AT] + remote
  }

  /** `key.rsplit_once('@')` */
  function RsplitOnce(key: Bytes): Option<(Bytes, Bytes)> {
    if key == [] then None
    else
      var n := |key| - 1;
      if key[n] == AT then Some((key[..n], []))
      else
        match RsplitOnce(key[..n])
        case None => None
        case Some((b, r)) => Some((b, r + [key[n]]))
  }

  lemma {:induction false} RsplitSound(key: Bytes)
    ensures RsplitOnce(key).None? <==> AT !in key
    ensures RsplitOnce(key).Some? ==>
              var (b, r) := RsplitOnce(key).value;
              key == RemoteKey(b, r) && AT !in r
  {
    if key == [] {
    } else {
      var n := |key| - 1;
      assert key == key[..n] + [key[n]];
      if key[n] != AT {
        RsplitSound(key[..n]);
      }
    }
  }

  lemma {:induction false} RsplitOfKey(b: Bytes, r: Bytes)
    requires AT !in r
    ensures RsplitOnce(RemoteKey(b, r)) == Some((b, r))
  {
    var key := RemoteKey(b, r);
    var n := |key| - 1;
    if r == [] {
      assert key[..n] == b;
    } else {
      assert key[..n] == RemoteKey(b, r[..|r| - 1]);
      RsplitOfKey(b, r[..|r| - 1]);
      assert r == r[..|r| - 1] + [r[|r| - 1]];
    }
  }

  /** A key splits at its last '@', or not at all. */
  lemma RsplitOnceExactly(key: Bytes, b: Bytes, r: Bytes)
    ensures RsplitOnce(key) == Some((b, r)) <==> key == b + [0x40] + r && 0x40 !in r
    ensures RsplitOnce(key) == None <==> 0x40 !in key
  {
    RsplitSound(key);
    if key == b + [0x40] + r && 0x40 !in r { RsplitOfKey(b, r); }
  }

  /** Printing and last-'@' splitting are mutually inverse exactly on the '@'-free remotes. */
  lemma RsplitInvertsKey(b: Bytes, r: Bytes)
    ensures RsplitOnce(RemoteKey(b, r)) == Some((b, r)) <==> AT !in r
  {
    RsplitSound(RemoteKey(b, r));
    if AT !in r { RsplitOfKey(b, r); }
  }

  // ---------- Remote bookmarks: nested map -> flat map ----------

  function RemoteRefToProto(r: JjRemoteRef): RemoteRef {
    RemoteRef(Some(RefTargetToProto(r.target)), r.state == Tracked)
  }

  function RemoteRefFromProto(r: RemoteRef): JjRemoteRef {
    JjRemoteRef(
      match r.target { case None => ABSENT_TARGET case Some(t) => RefTargetFromProto(t) },
      if r.isTracked then Tracked else New)
  }

  /** The map after inserting the entries one by one; a later entry replaces an earlier one. */
  function InsertAll<V>(m: map<Bytes, V>, es: seq<(Bytes, V)>): map<Bytes, V>
    decreases |es|
  {
    if es == [] then m else InsertAll(m[es[0].0 := es[0].1], es[1..])
  }

  function BookmarkEntries(remote: Bytes, es: seq<(Bytes, JjRemoteRef)>): (r: seq<(Bytes, RemoteRef)>)
    ensures |r| == |es|
  {
    seq(|es|, i requires 0 <= i < |es| => (RemoteKey(es[i].0, remote), RemoteRefToProto(es[i].1)))
  }

  /** The remotes in name order, each with its bookmarks in name order. */
  function RemoteLists(remoteViews: map<Bytes, JjRemoteView>): (rs: seq<(Bytes, seq<(Bytes, JjRemoteRef)>)>)
    ensures |rs| == |remoteViews|
  {
    var es := SortedEntries(remoteViews);
    seq(|es|, i requires 0 <= i < |es| => (es[i].0, SortedEntries(es[i].1.bookmarks)))
  }

  function AllBookmarkEntries(rs: seq<(Bytes, seq<(Bytes, JjRemoteRef)>)>): seq<(Bytes, RemoteRef)> {
    if rs == [] then [] else BookmarkEntries(rs[0].0, rs[0].1) + AllBookmarkEntries(rs[1..])
  }

  /** The flat map that the writing loops build, remote by remote and bookmark by bookmark. */
  function RemoteBookmarksToProto(remoteViews: map<Bytes, JjRemoteView>): map<Bytes, RemoteRef> {
    InsertAll(map[], AllBookmarkEntries(RemoteLists(remoteViews)))
  }

  predicate HasBookmark(remoteViews: map<Bytes, JjRemoteView>, r: Bytes, b: Bytes) {
    r in remoteViews && b in remoteViews[r].bookmarks
  }

  /** `value` is what some bookmark printed under `key` converts to. */
  ghost predicate Printed(remoteViews: map<Bytes, JjRemoteView>, key: Bytes, value: RemoteRef) {
    exists r, b :: HasBookmark(remoteViews, r, b) && key == RemoteKey(b, r)
                   && value == RemoteRefToProto(remoteViews[r].bookmarks[b])
  }

  /** Inserted keys are present, and carry the value of one of their entries. */
  lemma {:induction false} InsertAllSpec<V>(m: map<Bytes, V>, es: seq<(Bytes, V)>, k: Bytes)
    ensures k in InsertAll(m, es) <==> k in m || exists i :: 0 <= i < |es| && es[i].0 == k
    ensures k in InsertAll(m, es) ==>
              || (k in m && InsertAll(m, es)[k] == m[k])
              || exists i :: 0 <= i < |es| && es[i] == (k, InsertAll(m, es)[k])
    decreases |es|
  {
    if es == [] {
    } else {
      var m', t := m[es[0].0 := es[0].1], es[1..];
      InsertAllSpec(m', t, k);
      assert forall i :: 0 <= i < |t| ==> t[i] == es[i + 1];
      if exists i :: 0 <= i < |es| && es[i].0 == k {
        var i :| 0 <= i < |es| && es[i].0 == k;
        if i > 0 { assert t[i - 1].0 == k; }
      }
    }
  }

  /** Of the entries with one key the last counts. */
  lemma {:induction false} InsertAllLast<V>(m: map<Bytes, V>, es: seq<(Bytes, V)>, i: nat)
    requires i < |es| && forall j :: i < j < |es| ==> es[j].0 != es[i].0
    ensures es[i].0 in InsertAll(m, es) && InsertAll(m, es)[es[i].0] == es[i].1
    decreases |es|
  {
    var m', t := m[es[0].0 := es[0].1], es[1..];
    assert forall j :: 0 <= j < |t| ==> t[j] == es[j + 1];
    if i == 0 {
      InsertAllOther(m', t, es[0].0);
    } else {
      InsertAllLast(m', t, i - 1);
    }
  }

  lemma {:induction false} InsertAllOther<V>(m: map<Bytes, V>, es: seq<(Bytes, V)>, k: Bytes)
    requires forall j :: 0 <= j < |es| ==> es[j].0 != k
    ensures k in InsertAll(m, es) <==> k in m
    ensures k in m ==> InsertAll(m, es)[k] == m[k]
    decreases |es|
  {
    if es == [] {
    } else {
      InsertAllOther(m[es[0].0 := es[0].1], es[1..], k);
    }
  }

  /** Every entry of the concatenation comes from one bookmark of one remote... */
  lemma {:induction false} EntryOrigin(rs: seq<(Bytes, seq<(Bytes, JjRemoteRef)>)>, i: nat) returns (j: nat, n: nat)
    requires i < |AllBookmarkEntries(rs)|
    ensures j < |rs| && n < |rs[j].1|
    ensures AllBookmarkEntries(rs)[i] == (RemoteKey(rs[j].1[n].0, rs[j].0), RemoteRefToProto(rs[j].1[n].1))
  {
    if i < |rs[0].1| {
      j, n := 0, i;
    } else {
      j, n := EntryOrigin(rs[1..], i - |rs[0].1|);
      j := j + 1;
    }
  }

  /** ...and every bookmark of every remote has its entry. */
  lemma {:induction false} EntryIndex(rs: seq<(Bytes, seq<(Bytes, JjRemoteRef)>)>, j: nat, n: nat) returns (i: nat)
    requires j < |rs| && n < |rs[j].1|
    ensures i < |AllBookmarkEntries(rs)| && AllBookmarkEntries(rs)[i].0 == RemoteKey(rs[j].1[n].0, rs[j].0)
  {
    if j == 0 {
      i := n;
    } else {
      i := EntryIndex(rs[1..], j - 1, n);
      i := |rs[0].1| + i;
    }
  }

  lemma RemoteListsSound(remoteViews: map<Bytes, JjRemoteView>, j: nat, n: nat)
    requires j < |remoteViews| && n < |RemoteLists(remoteViews)[j].1|
    ensures var (r, es) := RemoteLists(remoteViews)[j];
      HasBookmark(remoteViews, r, es[n].0) && remoteViews[r].bookmarks[es[n].0] == es[n].1
  {
    SortedEntriesSpec(remoteViews);
    var view := SortedEntries(remoteViews)[j].1;
    assert RemoteLists(remoteViews)[j].1 == SortedEntries(view.bookmarks);
    SortedEntriesSpec(view.bookmarks);
  }

  lemma RemoteListsComplete(remoteViews: map<Bytes, JjRemoteView>, r: Bytes, b: Bytes) returns (j: nat, n: nat)
    requires HasBookmark(remoteViews, r, b)
    ensures j < |remoteViews| && RemoteLists(remoteViews)[j].0 == r
    ensures n < |RemoteLists(remoteViews)[j].1| && RemoteLists(remoteViews)[j].1[n].0 == b
  {
    j := SortedEntryAt(remoteViews, r);
    n := SortedEntryAt(remoteViews[r].bookmarks, b);
  }

  /** The flat map's keys are exactly the printed bookmarks, each with a value printed under it. */
  lemma RemoteBookmarksPrint(remoteViews: map<Bytes, JjRemoteView>, k: Bytes)
    ensures var m := RemoteBookmarksToProto(remoteViews);
      && (k in m ==> Printed(remoteViews, k, m[k]))
      && (forall r, b :: HasBookmark(remoteViews, r, b) && k == RemoteKey(b, r) ==> k in m)
  {
    var rs := RemoteLists(remoteViews);
    var es := AllBookmarkEntries(rs);
    var m := RemoteBookmarksToProto(remoteViews);
    var none: map<Bytes, RemoteRef> := map[];
    InsertAllSpec(none, es, k);
    if k in m {
      var i :| 0 <= i < |es| && es[i] == (k, m[k]);
      var j, n := EntryOrigin(rs, i);
      RemoteListsSound(remoteViews, j, n);
    }
    forall r, b | HasBookmark(remoteViews, r, b) && k == RemoteKey(b, r) ensures k in m {
      var j, n := RemoteListsComplete(remoteViews, r, b);
      var i := EntryIndex(rs, j, n);
      assert es[i].0 == k;
    }
  }

  /** No remote after `r` in name order has a bookmark printed under `k`. */
  ghost predicate LastToPrint(remoteViews: map<Bytes, JjRemoteView>, k: Bytes, r: Bytes) {
    forall r', b' :: HasBookmark(remoteViews, r', b') && RemoteKey(b', r') == k ==> LexLe(r', r)
  }

  lemma SameKeySameRemote(b: Bytes, b': Bytes, r: Bytes)
    requires RemoteKey(b, r) == RemoteKey(b', r)
    ensures b == b'
  {
    assert b == RemoteKey(b, r)[..|b|] && b' == RemoteKey(b', r)[..|b'|];
  }

  /** The entries of the remotes before, at and after position `j`. */
  lemma {:induction false} EntriesAround(rs: seq<(Bytes, seq<(Bytes, JjRemoteRef)>)>, j: nat)
    requires j < |rs|
    ensures AllBookmarkEntries(rs)
         == AllBookmarkEntries(rs[..j]) + BookmarkEntries(rs[j].0, rs[j].1) + AllBookmarkEntries(rs[j + 1..])
  {
    if j == 0 {
      assert AllBookmarkEntries(rs[..j]) == [];
    } else {
      EntriesAround(rs[1..], j - 1);
      assert rs[1..][..j - 1] == rs[..j][1..] && rs[1..][j..] == rs[j + 1..];
      FourAssoc(BookmarkEntries(rs[0].0, rs[0].1), AllBookmarkEntries(rs[..j][1..]),
                BookmarkEntries(rs[j].0, rs[j].1), AllBookmarkEntries(rs[j + 1..]));
    }
  }

  lemma FourAssoc<T>(a: seq<T>, b: seq<T>, c: seq<T>, d: seq<T>)
    ensures a + (b + c + d) == (a + b) + c + d
  {
  }

  lemma LastOfThree<V>(before: seq<(Bytes, V)>, at: seq<(Bytes, V)>, after: seq<(Bytes, V)>, n: nat)
    requires n < |at| && forall l :: n < l < |at| ==> at[l].0 != at[n].0
    requires forall l :: 0 <= l < |after| ==> after[l].0 != at[n].0
    ensures var m := InsertAll(map[], before + at + after); at[n].0 in m && m[at[n].0] == at[n].1
  {
    var es, i := before + at + after, |before| + n;
    assert es[i] == at[n];
    forall l | i < l < |es| ensures es[l].0 != es[i].0 {
      if l < |before| + |at| {
        assert es[l] == at[l - |before|];
      } else {
        assert es[l] == after[l - |before| - |at|];
      }
    }
    var none: map<Bytes, V> := map[];
    InsertAllLast(none, es, i);
  }

  /** When keys coincide, as `a@b` of remote `c` and `a` of remote `b@c` do, the remote that is last
      in name order provides the value: its target's present terms and whether it is tracked. */
  lemma LastRemoteWins(remoteViews: map<Bytes, JjRemoteView>, r: Bytes, b: Bytes)
    requires HasBookmark(remoteViews, r, b) && LastToPrint(remoteViews, RemoteKey(b, r), r)
    ensures var m, ref := RemoteBookmarksToProto(remoteViews), remoteViews[r].bookmarks[b];
      RemoteKey(b, r) in m
      && m[RemoteKey(b, r)] == RemoteRef(Some(RefTarget(RemovedIds(ref.target), AddedIds(ref.target))), ref.state == Tracked)
  {
    var rs := RemoteLists(remoteViews);
    var j, n := RemoteListsComplete(remoteViews, r, b);
    EntriesAround(rs, j);
    LaterRemotesPrintElse(remoteViews, r, b, j);
    OneRemotePrintsOnce(remoteViews, j, n);
    RemoteListsSound(remoteViews, j, n);
    LastOfThree(AllBookmarkEntries(rs[..j]), BookmarkEntries(r, rs[j].1), AllBookmarkEntries(rs[j + 1..]), n);
  }

  lemma OneRemotePrintsOnce(remoteViews: map<Bytes, JjRemoteView>, j: nat, n: nat)
    requires j < |remoteViews| && n < |RemoteLists(remoteViews)[j].1|
    ensures var (r, es) := RemoteLists(remoteViews)[j];
      forall l :: n < l < |es| ==> RemoteKey(es[l].0, r) != RemoteKey(es[n].0, r)
  {
    var (r, es) := RemoteLists(remoteViews)[j];
    SortedEntriesSpec(SortedEntries(remoteViews)[j].1.bookmarks);
    forall l | n < l < |es| ensures RemoteKey(es[l].0, r) != RemoteKey(es[n].0, r) {
      if RemoteKey(es[l].0, r) == RemoteKey(es[n].0, r) { SameKeySameRemote(es[l].0, es[n].0, r); }
    }
  }

  lemma RemoteListsAscend(remoteViews: map<Bytes, JjRemoteView>, i: nat, j: nat)
    requires i < j < |remoteViews|
    ensures var rs := RemoteLists(remoteViews); rs[i].0 != rs[j].0 && LexLe(rs[i].0, rs[j].0)
  {
    SortedEntriesSpec(remoteViews);
  }

  predicate PrintsAt(rs: seq<(Bytes, seq<(Bytes, JjRemoteRef)>)>, j: nat, n: nat, key: Bytes)
    requires j < |rs| && n < |rs[j].1|
  {
    RemoteKey(rs[j].1[n].0, rs[j].0) == key
  }

  ghost predicate NobodyAfter(rs: seq<(Bytes, seq<(Bytes, JjRemoteRef)>)>, j: nat, key: Bytes) {
    forall j', n :: j < j' < |rs| && 0 <= n < |rs[j'].1| ==> !PrintsAt(rs, j', n, key)
  }

  lemma EntryAfter(rs: seq<(Bytes, seq<(Bytes, JjRemoteRef)>)>, j: nat, key: Bytes, l: nat)
    requires j < |rs| && NobodyAfter(rs, j, key) && l < |AllBookmarkEntries(rs[j + 1..])|
    ensures AllBookmarkEntries(rs[j + 1..])[l].0 != key
  {
    var later := rs[j + 1..];
    var j', n := EntryOrigin(later, l);
    assert later[j'] == rs[j + 1 + j'];
    assert !PrintsAt(rs, j + 1 + j', n, key);
  }

  lemma LaterBookmarkElse(remoteViews: map<Bytes, JjRemoteView>, r: Bytes, b: Bytes, j: nat, j': nat, n': nat)
    requires LastToPrint(remoteViews, RemoteKey(b, r), r)
    requires j < j' < |remoteViews| && RemoteLists(remoteViews)[j].0 == r && n' < |RemoteLists(remoteViews)[j'].1|
    ensures !PrintsAt(RemoteLists(remoteViews), j', n', RemoteKey(b, r))
  {
    var (r', es) := RemoteLists(remoteViews)[j'];
    RemoteListsSound(remoteViews, j', n');
    RemoteListsAscend(remoteViews, j, j');
    if RemoteKey(es[n'].0, r') == RemoteKey(b, r) { LexAntisymmetric(r, r'); }
  }

  lemma LaterNobody(remoteViews: map<Bytes, JjRemoteView>, r: Bytes, b: Bytes, j: nat)
    requires LastToPrint(remoteViews, RemoteKey(b, r), r)
    requires j < |remoteViews| && RemoteLists(remoteViews)[j].0 == r
    ensures NobodyAfter(RemoteLists(remoteViews), j, RemoteKey(b, r))
  {
    var rs, key := RemoteLists(remoteViews), RemoteKey(b, r);
    forall j', n | j < j' < |rs| && 0 <= n < |rs[j'].1| ensures !PrintsAt(rs, j', n, key) {
      LaterBookmarkElse(remoteViews, r, b, j, j', n);
    }
  }

  lemma LaterRemotesPrintElse(remoteViews: map<Bytes, JjRemoteView>, r: Bytes, b: Bytes, j: nat)
    requires LastToPrint(remoteViews, RemoteKey(b, r), r)
    requires j < |remoteViews| && RemoteLists(remoteViews)[j].0 == r
    ensures var after := AllBookmarkEntries(RemoteLists(remoteViews)[j + 1..]);
      forall l :: 0 <= l < |after| ==> after[l].0 != RemoteKey(b, r)
  {
    var rs, key := RemoteLists(remoteViews), RemoteKey(b, r);
    LaterNobody(remoteViews, r, b, j);
    var after := AllBookmarkEntries(rs[j + 1..]);
    forall l | 0 <= l < |after| ensures after[l].0 != key { EntryAfter(rs, j, key, l); }
  }

  ghost predicate NoAtInRemotes(remoteViews: map<Bytes, JjRemoteView>) {
    forall r, b :: HasBookmark(remoteViews, r, b) ==> AT !in r
  }

  /** With '@'-free remotes every bookmark is found under its own key. */
  lemma RemoteBookmarksExact(remoteViews: map<Bytes, JjRemoteView>, r: Bytes, b: Bytes)
    requires NoAtInRemotes(remoteViews) && HasBookmark(remoteViews, r, b)
    ensures var m := RemoteBookmarksToProto(remoteViews);
      RemoteKey(b, r) in m && m[RemoteKey(b, r)] == RemoteRefToProto(remoteViews[r].bookmarks[b])
  {
    var m, k := RemoteBookmarksToProto(remoteViews), RemoteKey(b, r);
    RemoteBookmarksPrint(remoteViews, k);
    var r', b' :| HasBookmark(remoteViews, r', b') && k == RemoteKey(b', r')
                  && m[k] == RemoteRefToProto(remoteViews[r'].bookmarks[b']);
    RsplitOfKey(b, r);
    RsplitOfKey(b', r');
  }

  // ---------- Remote bookmarks: flat map -> nested map ----------

  predicate Splits(k: Bytes, b: Bytes, r: Bytes) {
    RsplitOnce(k) == Some((b, r))
  }

  function RemoteNames(m: map<Bytes, RemoteRef>): set<Bytes> {
    set k | k in m && RsplitOnce(k).Some? :: RsplitOnce(k).value.1
  }

  function BookmarkNames(m: map<Bytes, RemoteRef>, r: Bytes): set<Bytes> {
    set k | k in m && RsplitOnce(k).Some? && RsplitOnce(k).value.1 == r :: RsplitOnce(k).value.0
  }

  lemma BookmarkNamesKeys(m: map<Bytes, RemoteRef>, r: Bytes)
    ensures forall b :: b in BookmarkNames(m, r) <==> RemoteKey(b, r) in m && AT !in r
  {
    forall b ensures b in BookmarkNames(m, r) <==> RemoteKey(b, r) in m && AT !in r {
      if b in BookmarkNames(m, r) {
        var k :| k in m && RsplitOnce(k) == Some((b, r));
        RsplitSound(k);
      }
      if RemoteKey(b, r) in m && AT !in r {
        RsplitOfKey(b, r);
        assert Splits(RemoteKey(b, r), b, r);
      }
    }
  }

  lemma RemoteNamesKeys(m: map<Bytes, RemoteRef>)
    ensures forall r :: r in RemoteNames(m) <==> BookmarkNames(m, r) != {}
  {
    forall r ensures r in RemoteNames(m) <==> BookmarkNames(m, r) != {} {
      if r in RemoteNames(m) {
        var k :| k in m && RsplitOnce(k).Some? && RsplitOnce(k).value.1 == r;
        assert RsplitOnce(k).value.0 in BookmarkNames(m, r);
      }
      if BookmarkNames(m, r) != {} {
        var b :| b in BookmarkNames(m, r);
        var k :| k in m && RsplitOnce(k) == Some((b, r));
        assert RsplitOnce(k).value.1 == r;
      }
    }
  }

  function BookmarksFromProto(m: map<Bytes, RemoteRef>, r: Bytes): map<Bytes, JjRemoteRef> {
    BookmarkNamesKeys(m, r);
    map b | b in BookmarkNames(m, r) :: RemoteRefFromProto(m[RemoteKey(b, r)])
  }

  /** The nested map that the reading loop builds, whatever order the hash map yields its keys in. */
  function RemoteViewsFromProto(m: map<Bytes, RemoteRef>): map<Bytes, JjRemoteView> {
    map r | r in RemoteNames(m) :: JjRemoteView(BookmarksFromProto(m, r))
  }

  lemma RemoteViewsHave(m: map<Bytes, RemoteRef>, r: Bytes, b: Bytes)
    ensures HasBookmark(RemoteViewsFromProto(m), r, b) <==> RemoteKey(b, r) in m && AT !in r
    ensures HasBookmark(RemoteViewsFromProto(m), r, b) ==>
              RemoteViewsFromProto(m)[r].bookmarks[b] == RemoteRefFromProto(m[RemoteKey(b, r)])
  {
    BookmarkNamesKeys(m, r);
    RemoteNamesKeys(m);
  }

  lemma RemoteViewsNonEmpty(m: map<Bytes, RemoteRef>, r: Bytes)
    requires r in RemoteViewsFromProto(m)
    ensures RemoteViewsFromProto(m)[r].bookmarks != map[] && AT !in r
  {
    BookmarkNamesKeys(m, r);
    RemoteNamesKeys(m);
    var b :| b in BookmarkNames(m, r);
    assert b in BookmarksFromProto(m, r);
  }

  // ---------- Views ----------

  /** `view_to_proto`; `headIds` is the order in which the hash set yields the heads. */
  function ViewToProto(v: JjView, headIds: seq<Bytes>): View {
    View(headIds, v.wcCommitIds,
         map k | k in v.localBookmarks :: RefTargetToProto(v.localBookmarks[k]),
         RemoteBookmarksToProto(v.remoteViews))
  }

  function ViewFromProto(p: View): JjView {
    JjView((set id | id in p.headIds), p.wcCommitIds,
           map k | k in p.localBookmarks :: RefTargetFromProto(p.localBookmarks[k]),
           map[], RemoteViewsFromProto(p.remoteBookmarks), map[], ABSENT_TARGET)
  }

  lemma {:induction false} InsertAllAppend<V>(m: map<Bytes, V>, es: seq<(Bytes, V)>, e: (Bytes, V))
    ensures InsertAll(m, es + [e]) == InsertAll(m, es)[e.0 := e.1]
    decreases |es|
  {
    if es == [] {
      assert [e][1..] == [];
    } else {
      InsertAllAppend(m[es[0].0 := es[0].1], es[1..], e);
      assert (es + [e])[1..] == es[1..] + [e];
    }
  }

  lemma {:induction false} InsertAllConcat<V>(m: map<Bytes, V>, es: seq<(Bytes, V)>, ds: seq<(Bytes, V)>)
    ensures InsertAll(m, es + ds) == InsertAll(InsertAll(m, es), ds)
    decreases |es|
  {
    if es == [] {
      assert es + ds == ds;
    } else {
      InsertAllConcat(m[es[0].0 := es[0].1], es[1..], ds);
      assert (es + ds)[1..] == es[1..] + ds;
    }
  }

  lemma {:induction false} AllBookmarkEntriesSnoc(
    rs: seq<(Bytes, seq<(Bytes, JjRemoteRef)>)>, r: (Bytes, seq<(Bytes, JjRemoteRef)>))
    ensures AllBookmarkEntries(rs + [r]) == AllBookmarkEntries(rs) + BookmarkEntries(r.0, r.1)
  {
    if rs == [] {
      assert AllBookmarkEntries([r]) == BookmarkEntries(r.0, r.1) + AllBookmarkEntries([r][1..]);
    } else {
      AllBookmarkEntriesSnoc(rs[1..], r);
      assert (rs + [r])[1..] == rs[1..] + [r];
    }
  }

  method EnumerateHeads(headIds: set<Bytes>) returns (s: seq<Bytes>)
    ensures Enumerates(s, headIds)
  {
    s := [];
    var remaining := headIds;
    while remaining != {}
      invariant remaining <= headIds && Enumerates(s, headIds - remaining)
      decreases |remaining|
    {
      var id :| id in remaining;
      s := s + [id];
      remaining := remaining - {id};
    }
  }

  method InsertBookmarks(m: map<Bytes, RemoteRef>, remote: Bytes, es: seq<(Bytes, JjRemoteRef)>)
    returns (r: map<Bytes, RemoteRef>)
    ensures r == InsertAll(m, BookmarkEntries(remote, es))
  {
    r := m;
    ghost var added := BookmarkEntries(remote, es);
    for j := 0 to |es|
      invariant r == InsertAll(m, added[..j])
    {
      var key := es[j].0 + [AT] + remote;
      r := r[key := RemoteRefToProto(es[j].1)];
      InsertAllAppend(m, added[..j], added[j]);
      assert added[..j + 1] == added[..j] + [added[j]];
    }
    assert added[..|es|] == added;
  }

  method InsertRemotes(rs: seq<(Bytes, seq<(Bytes, JjRemoteRef)>)>) returns (m: map<Bytes, RemoteRef>)
    ensures m == InsertAll(map[], AllBookmarkEntries(rs))
  {
    m := map[];
    for i := 0 to |rs|
      invariant m == InsertAll(map[], AllBookmarkEntries(rs[..i]))
    {
      m := InsertBookmarks(m, rs[i].0, rs[i].1);
      InsertAllConcat(map[], AllBookmarkEntries(rs[..i]), BookmarkEntries(rs[i].0, rs[i].1));
      AllBookmarkEntriesSnoc(rs[..i], rs[i]);
      assert rs[..i + 1] == rs[..i] + [rs[i]];
    }
    assert rs[..|rs|] == rs;
  }

  /** The conversion loops over every remote view and every bookmark in it. */
  method WriteRemoteBookmarks(remoteViews: map<Bytes, JjRemoteView>) returns (m: map<Bytes, RemoteRef>)
    ensures m == RemoteBookmarksToProto(remoteViews)
  {
    m := InsertRemotes(RemoteLists(remoteViews));
  }

  /** `view_to_proto`: the heads leave the hash set in any order. */
  method WriteViewProto(v: JjView) returns (p: View)
    ensures Enumerates(p.headIds, v.headIds) && p == ViewToProto(v, p.headIds)
  {
    var headIds := EnumerateHeads(v.headIds);
    var remoteBookmarks := WriteRemoteBookmarks(v.remoteViews);
    p := View(headIds, v.wcCommitIds,
              map k | k in v.localBookmarks :: RefTargetToProto(v.localBookmarks[k]), remoteBookmarks);
  }

  lemma UnsplitKeyIgnored(m: map<Bytes, RemoteRef>, k: Bytes, v: RemoteRef)
    requires k !in m && RsplitOnce(k).None?
    ensures RemoteViewsFromProto(m[k := v]) == RemoteViewsFromProto(m)
  {
    assert RemoteNames(m[k := v]) == RemoteNames(m);
    forall r ensures BookmarksFromProto(m[k := v], r) == BookmarksFromProto(m, r) {
      UnsplitKeyUnseen(m, k, v, r);
    }
  }

  lemma UnsplitKeyUnseen(m: map<Bytes, RemoteRef>, k: Bytes, v: RemoteRef, r: Bytes)
    requires k !in m && RsplitOnce(k).None?
    ensures BookmarksFromProto(m[k := v], r) == BookmarksFromProto(m, r)
  {
    var n := m[k := v];
    assert BookmarkNames(n, r) == BookmarkNames(m, r);
    BookmarkNamesKeys(n, r);
    BookmarkNamesKeys(m, r);
    RsplitSound(k);
  }

  lemma OtherRemoteUntouched(m: map<Bytes, RemoteRef>, k: Bytes, v: RemoteRef, r: Bytes)
    requires k !in m && RsplitOnce(k).Some? && RsplitOnce(k).value.1 != r
    ensures BookmarksFromProto(m[k := v], r) == BookmarksFromProto(m, r)
  {
    var n := m[k := v];
    assert BookmarkNames(n, r) == BookmarkNames(m, r);
    BookmarkNamesKeys(n, r);
    BookmarkNamesKeys(m, r);
    forall b | b in BookmarkNames(m, r) ensures n[RemoteKey(b, r)] == m[RemoteKey(b, r)] {
      RsplitOfKey(b, r);
    }
  }

  lemma BookmarkAdded(m: map<Bytes, RemoteRef>, k: Bytes, v: RemoteRef, b: Bytes, r: Bytes)
    requires k !in m && Splits(k, b, r)
    ensures BookmarksFromProto(m[k := v], r) == BookmarksFromProto(m, r)[b := RemoteRefFromProto(v)]
  {
    var n := m[k := v];
    RsplitSound(k);
    BookmarkNamesKeys(n, r);
    BookmarkNamesKeys(m, r);
    forall c ensures c in BookmarkNames(n, r) <==> c in BookmarkNames(m, r) || c == b {
      if AT !in r && RemoteKey(c, r) == k { RsplitOfKey(c, r); }
    }
    forall c | c in BookmarkNames(m, r) ensures RemoteKey(c, r) != k && n[RemoteKey(c, r)] == m[RemoteKey(c, r)] {
    }
  }

  function WithBookmark(vs: map<Bytes, JjRemoteView>, b: Bytes, r: Bytes, ref: JjRemoteRef): map<Bytes, JjRemoteView> {
    var bookmarks := if r in vs then vs[r].bookmarks else map[];
    vs[r := JjRemoteView(bookmarks[b := ref])]
  }

  lemma NoBookmarksOfUnknownRemote(m: map<Bytes, RemoteRef>, r: Bytes)
    requires r !in RemoteNames(m)
    ensures BookmarksFromProto(m, r) == map[]
  {
    RemoteNamesKeys(m);
  }

  lemma RemoteNamesInsert(m: map<Bytes, RemoteRef>, k: Bytes, v: RemoteRef, b: Bytes, r: Bytes)
    requires k !in m && Splits(k, b, r)
    ensures RemoteNames(m[k := v]) == RemoteNames(m) + {r}
  {
    assert RsplitOnce(k).value.1 == r;
  }

  lemma BookmarkInserted(m: map<Bytes, RemoteRef>, k: Bytes, v: RemoteRef, b: Bytes, r: Bytes)
    requires k !in m && Splits(k, b, r)
    ensures BookmarksFromProto(m[k := v], r)
         == WithBookmark(RemoteViewsFromProto(m), b, r, RemoteRefFromProto(v))[r].bookmarks
  {
    BookmarkAdded(m, k, v, b, r);
    if r !in RemoteNames(m) { NoBookmarksOfUnknownRemote(m, r); }
  }

  lemma OtherRemoteKept(m: map<Bytes, RemoteRef>, k: Bytes, v: RemoteRef, b: Bytes, r: Bytes, r': Bytes)
    requires k !in m && Splits(k, b, r) && r' != r && r' in RemoteNames(m)
    ensures WithBookmark(RemoteViewsFromProto(m), b, r, RemoteRefFromProto(v))[r']
         == JjRemoteView(BookmarksFromProto(m[k := v], r'))
  {
    OtherRemoteUntouched(m, k, v, r');
  }

  /** One more key of the flat map, seen from the nested one. */
  lemma SplitKeyInserted(m: map<Bytes, RemoteRef>, k: Bytes, v: RemoteRef, b: Bytes, r: Bytes)
    requires k !in m && Splits(k, b, r)
    ensures RemoteViewsFromProto(m[k := v]) == WithBookmark(RemoteViewsFromProto(m), b, r, RemoteRefFromProto(v))
  {
    var ws := RemoteViewsFromProto(m[k := v]);
    var us := WithBookmark(RemoteViewsFromProto(m), b, r, RemoteRefFromProto(v));
    RemoteNamesInsert(m, k, v, b, r);
    assert ws.Keys == us.Keys;
    forall r' | r' in ws ensures ws[r'] == us[r'] {
      if r' == r { BookmarkInserted(m, k, v, b, r); } else { OtherRemoteKept(m, k, v, b, r, r'); }
    }
  }

  /** The reading loop over the hash map, in any order. */
  method ReadRemoteBookmarks(m: map<Bytes, RemoteRef>) returns (remoteViews: map<Bytes, JjRemoteView>)
    ensures remoteViews == RemoteViewsFromProto(m)
  {
    remoteViews := map[];
    var remaining := m.Keys;
    ghost var seen: map<Bytes, RemoteRef> := map[];
    while remaining != {}
      invariant remaining <= m.Keys && seen == (map k | k in m && k !in remaining :: m[k])
      invariant remoteViews == RemoteViewsFromProto(seen)
      decreases |remaining|
    {
      var key :| key in remaining;
      var remoteRef := RemoteRefFromProto(m[key]);
      match RsplitOnce(key) {
        case Some((b, r)) =>
          SplitKeyInserted(seen, key, m[key], b, r);
          var bookmarks := if r in remoteViews then remoteViews[r].bookmarks else map[];
          remoteViews := remoteViews[r := JjRemoteView(bookmarks[b := remoteRef])];
        case None =>
          UnsplitKeyIgnored(seen, key, m[key]);
      }
      seen := seen[key := m[key]];
      remaining := remaining - {key};
    }
    assert seen == m;
  }

  method ReadViewProto(p: View) returns (v: JjView)
    ensures v == ViewFromProto(p)
  {
    var remoteViews := ReadRemoteBookmarks(p.remoteBookmarks);
    v := JjView((set id | id in p.headIds), p.wcCommitIds,
                map k | k in p.localBookmarks :: RefTargetFromProto(p.localBookmarks[k]),
                map[], remoteViews, map[], ABSENT_TARGET);
  }

  // ---------- What the two conversions say, field by field ----------

  /** The message of a view, whatever order its heads are sent in. */
  lemma ViewToProtoExactly(v: JjView, headIds: seq<Bytes>, k: Bytes)
    ensures var p := ViewToProto(v, headIds);
      && p.headIds == headIds && p.wcCommitIds == v.wcCommitIds
      && (k in p.localBookmarks <==> k in v.localBookmarks)
      && (k in v.localBookmarks ==>
            p.localBookmarks[k] == RefTarget(RemovedIds(v.localBookmarks[k]), AddedIds(v.localBookmarks[k])))
      && (k in p.remoteBookmarks <==> exists r, b :: HasBookmark(v.remoteViews, r, b) && k == b + [0x40] + r)
  {
    RemoteBookmarksPrint(v.remoteViews, k);
    if exists r, b :: HasBookmark(v.remoteViews, r, b) && k == b + [0x40] + r {
      var r, b :| HasBookmark(v.remoteViews, r, b) && k == b + [0x40] + r;
      assert k == RemoteKey(b, r);
    }
  }

  ghost predicate HasTerms(t: JjRefTarget, o: Option<RefTarget>) {
    match o
    case None => RemovedIds(t) == [] && AddedIds(t) == []
    case Some(p) => RemovedIds(t) == p.removes && AddedIds(t) == p.adds
  }

  lemma RemoteRefFromProtoExactly(r: RemoteRef)
    ensures RemoteRefFromProto(r).state == Tracked <==> r.isTracked
    ensures HasTerms(RemoteRefFromProto(r).target, r.target)
  {
    if r.target.Some? { RefTargetStable(r.target.value); }
  }

  /** The view made of any message: its own fields, remote keys split at their last '@' and those
      without one dropped, and nothing else. */
  lemma ViewFromProtoExactly(p: View, k: Bytes, r: Bytes, b: Bytes)
    ensures var v := ViewFromProto(p);
      && (k in v.headIds <==> k in p.headIds) && v.wcCommitIds == p.wcCommitIds
      && (k in v.localBookmarks <==> k in p.localBookmarks)
      && (k in p.localBookmarks ==> HasTerms(v.localBookmarks[k], Some(p.localBookmarks[k])))
      && (HasBookmark(v.remoteViews, r, b) <==> b + [0x40] + r in p.remoteBookmarks && 0x40 !in r)
      && (HasBookmark(v.remoteViews, r, b) ==>
            var ref, sent := v.remoteViews[r].bookmarks[b], p.remoteBookmarks[b + [0x40] + r];
            (ref.state == Tracked <==> sent.isTracked) && HasTerms(ref.target, sent.target))
      && (r in v.remoteViews ==> v.remoteViews[r].bookmarks != map[])
      && v.localTags == map[] && v.gitRefs == map[] && v.gitHead == ABSENT_TARGET
  {
    var v := ViewFromProto(p);
    assert RemoteKey(b, r) == b + [0x40] + r;
    RemoteViewsHave(p.remoteBookmarks, r, b);
    if HasBookmark(v.remoteViews, r, b) { RemoteRefFromProtoExactly(p.remoteBookmarks[RemoteKey(b, r)]); }
    if k in p.localBookmarks { RefTargetStable(p.localBookmarks[k]); }
    if r in v.remoteViews { RemoteViewsNonEmpty(p.remoteBookmarks, r); }
  }

  // ---------- View round trip ----------

  /** Every remote bookmark comes back with its terms and its state, and nothing else does. */
  ghost predicate RemotesRecovered(v: map<Bytes, JjRemoteView>, w: map<Bytes, JjRemoteView>) {
    && (forall r :: r in w ==> w[r].bookmarks != map[])
    && (forall r, b :: HasBookmark(v, r, b) <==> HasBookmark(w, r, b))
    && (forall r, b :: HasBookmark(w, r, b) && HasBookmark(v, r, b) ==>
          && w[r].bookmarks[b].state == v[r].bookmarks[b].state
          && SameTerms(w[r].bookmarks[b].target, v[r].bookmarks[b].target))
  }

  /** Heads, working copies, local bookmarks (terms in order) and remote bookmarks come back, and
      nothing is made up for what the messages do not carry. */
  ghost predicate ViewRecovered(v: JjView, w: JjView) {
    && w.headIds == v.headIds
    && w.wcCommitIds == v.wcCommitIds
    && w.localBookmarks.Keys == v.localBookmarks.Keys
    && (forall k :: k in v.localBookmarks ==> SameTerms(w.localBookmarks[k], v.localBookmarks[k]))
    && RemotesRecovered(v.remoteViews, w.remoteViews)
    && w.localTags == map[] && w.gitRefs == map[] && w.gitHead == ABSENT_TARGET
  }

  lemma RemoteRefRecovered(r: JjRemoteRef)
    ensures RemoteRefFromProto(RemoteRefToProto(r)).state == r.state
    ensures SameTerms(RemoteRefFromProto(RemoteRefToProto(r)).target, r.target)
  {
    RefTargetRecovered(r.target);
  }

  lemma RemotesRoundTrip(v: map<Bytes, JjRemoteView>)
    requires NoAtInRemotes(v)
    ensures RemotesRecovered(v, RemoteViewsFromProto(RemoteBookmarksToProto(v)))
  {
    var m := RemoteBookmarksToProto(v);
    var w := RemoteViewsFromProto(m);
    forall r | r in w ensures w[r].bookmarks != map[] { RemoteViewsNonEmpty(m, r); }
    forall r, b ensures HasBookmark(v, r, b) <==> HasBookmark(w, r, b) {
      RemoteViewsHave(m, r, b);
      RemoteBookmarksPrint(v, RemoteKey(b, r));
      if HasBookmark(w, r, b) {
        var r', b' :| HasBookmark(v, r', b') && RemoteKey(b, r) == RemoteKey(b', r');
        RsplitOfKey(b, r);
        RsplitOfKey(b', r');
      }
    }
    forall r, b | HasBookmark(w, r, b) && HasBookmark(v, r, b)
      ensures w[r].bookmarks[b].state == v[r].bookmarks[b].state
      ensures SameTerms(w[r].bookmarks[b].target, v[r].bookmarks[b].target)
    {
      RemoteViewsHave(m, r, b);
      RemoteBookmarksExact(v, r, b);
      RemoteRefRecovered(v[r].bookmarks[b]);
    }
  }

  lemma LocalsRoundTrip(m: map<Bytes, JjRefTarget>)
    ensures forall k :: k in m ==> SameTerms(RefTargetFromProto(RefTargetToProto(m[k])), m[k])
  {
    forall k | k in m ensures SameTerms(RefTargetFromProto(RefTargetToProto(m[k])), m[k]) {
      RefTargetRecovered(m[k]);
    }
  }

  lemma RemotesRecoveredIff(v: map<Bytes, JjRemoteView>)
    ensures RemotesRecovered(v, RemoteViewsFromProto(RemoteBookmarksToProto(v))) <==> NoAtInRemotes(v)
  {
    if NoAtInRemotes(v) {
      RemotesRoundTrip(v);
    } else {
      var r, b :| HasBookmark(v, r, b) && AT in r;
      RemoteViewsHave(RemoteBookmarksToProto(v), r, b);
    }
  }

  /** A view survives being written and read back, whatever order its heads are sent in, exactly
      when no remote that has a bookmark has '@' in its name. Bookmark names may contain '@'. */
  lemma ViewRoundTrip(v: JjView, headIds: seq<Bytes>)
    requires Enumerates(headIds, v.headIds)
    ensures ViewRecovered(v, ViewFromProto(ViewToProto(v, headIds))) <==> NoAtInRemotes(v.remoteViews)
  {
    LocalsRoundTrip(v.localBookmarks);
    RemotesRecoveredIff(v.remoteViews);
  }

  /** The tags and refs of `v`, the terms of each, and its remotes come back as well. */
  ghost predicate RestRecovered(v: JjView, w: JjView) {
    && w.localTags.Keys == v.localTags.Keys
    && (forall k :: k in v.localTags ==> SameTerms(w.localTags[k], v.localTags[k]))
    && w.gitRefs.Keys == v.gitRefs.Keys
    && (forall k :: k in v.gitRefs ==> SameTerms(w.gitRefs[k], v.gitRefs[k]))
    && SameTerms(w.gitHead, v.gitHead)
    && w.remoteViews.Keys == v.remoteViews.Keys
  }

  /** What the messages carry is all there is. */
  ghost predicate Carried(v: JjView) {
    && v.localTags == map[] && v.gitRefs == map[] && SameTerms(v.gitHead, ABSENT_TARGET)
    && forall r :: r in v.remoteViews ==> v.remoteViews[r].bookmarks != map[]
  }

  lemma RemotesKeys(v: map<Bytes, JjRemoteView>, w: map<Bytes, JjRemoteView>)
    requires RemotesRecovered(v, w)
    ensures w.Keys == v.Keys <==> forall r :: r in v ==> v[r].bookmarks != map[]
  {
    forall r | r in w ensures r in v && v[r].bookmarks != map[] {
      var b :| b in w[r].bookmarks;
      assert HasBookmark(w, r, b) && HasBookmark(v, r, b);
    }
    forall r | r in v && v[r].bookmarks != map[] ensures r in w {
      var b :| b in v[r].bookmarks;
      assert HasBookmark(v, r, b) && HasBookmark(w, r, b);
    }
  }

  /** The whole view comes back exactly when, besides, it has nothing that the messages leave out. */
  lemma WholeViewRoundTrip(v: JjView, headIds: seq<Bytes>)
    requires Enumerates(headIds, v.headIds)
    ensures var w := ViewFromProto(ViewToProto(v, headIds));
      ViewRecovered(v, w) && RestRecovered(v, w) <==> NoAtInRemotes(v.remoteViews) && Carried(v)
  {
    var w := ViewFromProto(ViewToProto(v, headIds));
    ViewRoundTrip(v, headIds);
    if ViewRecovered(v, w) { RestRecoveredExactly(v, w); }
  }

  lemma RestRecoveredExactly(v: JjView, w: JjView)
    requires ViewRecovered(v, w)
    ensures RestRecovered(v, w) <==> Carried(v)
  {
    RemotesKeys(v.remoteViews, w.remoteViews);
    NoKeys(v.localTags);
    NoKeys(v.gitRefs);
  }

  lemma NoKeys<V>(m: map<Bytes, V>)
    ensures m.Keys == {} <==> m == map[]
  {
  }
}
