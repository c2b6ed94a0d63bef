/** Reading a view and writing it back: when the second write gets the id of the first. */
module ViewStability {
  import opened ByteStrings
  import opened Wrappers
  import opened Sorting
  import opened Frames
  import opened OpStoreProto
  import opened HashUtils
  import opened ViewHash
  import opened JjTypes
  import opened ClientOpStore

  // ---------- What a client keeps of a remote bookmark map ----------

  function Kept(r: RemoteRef): RemoteRef {
    RemoteRef(Some(match r.target { case None => RefTarget([], []) case Some(t) => t }), r.isTracked)
  }

  function KeptRemotes(m: map<Bytes, RemoteRef>): map<Bytes, RemoteRef> {
    map k | k in m && AT in k :: Kept(m[k])
  }

  lemma RemoteRefKept(r: RemoteRef)
    ensures RemoteRefToProto(RemoteRefFromProto(r)) == Kept(r)
  {
    match r.target
    case None => assert AddedIds(ABSENT_TARGET) == [];
    case Some(t) => RefTargetStable(t);
  }

  lemma FromProtoHasNoAt(m: map<Bytes, RemoteRef>)
    ensures NoAtInRemotes(RemoteViewsFromProto(m))
  {
    forall r, b | HasBookmark(RemoteViewsFromProto(m), r, b) ensures AT !in r {
      RemoteViewsHave(m, r, b);
    }
  }

  lemma KeptKeys(m: map<Bytes, RemoteRef>, k: Bytes)
    ensures k in RemoteBookmarksToProto(RemoteViewsFromProto(m)) <==> k in m && AT in k
  {
    var vs := RemoteViewsFromProto(m);
    RemoteBookmarksPrint(vs, k);
    if k in RemoteBookmarksToProto(vs) {
      var r, b :| HasBookmark(vs, r, b) && k == RemoteKey(b, r);
      RemoteViewsHave(m, r, b);
    }
    if k in m && AT in k {
      RsplitSound(k);
      var (b, r) := RsplitOnce(k).value;
      RemoteViewsHave(m, r, b);
    }
  }

  lemma KeptValues(m: map<Bytes, RemoteRef>, k: Bytes)
    requires k in m && AT in k && k in RemoteBookmarksToProto(RemoteViewsFromProto(m))
    ensures RemoteBookmarksToProto(RemoteViewsFromProto(m))[k] == Kept(m[k])
  {
    FromProtoHasNoAt(m);
    RsplitSound(k);
    var (b, r) := RsplitOnce(k).value;
    RemoteViewsHave(m, r, b);
    RemoteBookmarksExact(RemoteViewsFromProto(m), r, b);
    RemoteRefKept(m[k]);
  }

  ghost predicate AgreeAt(m: map<Bytes, RemoteRef>, n: map<Bytes, RemoteRef>, k: Bytes) {
    (k in m <==> k in n) && (k in m ==> m[k] == n[k])
  }

  lemma KeptAt(m: map<Bytes, RemoteRef>, k: Bytes)
    ensures AgreeAt(RemoteBookmarksToProto(RemoteViewsFromProto(m)), KeptRemotes(m), k)
  {
    KeptKeys(m, k);
    if k in m && AT in k { KeptValues(m, k); }
  }

  lemma AgreeEverywhere(m: map<Bytes, RemoteRef>, n: map<Bytes, RemoteRef>)
    requires forall k :: AgreeAt(m, n, k)
    ensures m == n
  {
    assert forall k :: AgreeAt(m, n, k) ==> (k in m <==> k in n);
  }

  /** Reading and writing back keeps exactly the keys with an '@'. */
  lemma RemotesKept(m: map<Bytes, RemoteRef>)
    ensures RemoteBookmarksToProto(RemoteViewsFromProto(m)) == KeptRemotes(m)
  {
    forall k ensures AgreeAt(RemoteBookmarksToProto(RemoteViewsFromProto(m)), KeptRemotes(m), k) { KeptAt(m, k); }
    AgreeEverywhere(RemoteBookmarksToProto(RemoteViewsFromProto(m)), KeptRemotes(m));
  }

  lemma KeptTokens(k: Bytes, r: RemoteRef)
    ensures RemoteTokens((k, Kept(r))) == RemoteTokens((k, r))
  {
    assert SortBytes([]) == [];
    assert RefTargetTokens(RefTarget([], [])) == [];
  }

  lemma LocalsKept(m: map<Bytes, RefTarget>)
    ensures var w := map k | k in m :: RefTargetFromProto(m[k]);
      (map k | k in w :: RefTargetToProto(w[k])) == m
  {
    forall k | k in m ensures RefTargetToProto(RefTargetFromProto(m[k])) == m[k] { RefTargetStable(m[k]); }
  }

  // ---------- Dropping entries shortens the buffer ----------

  lemma EncodedLength<T>(xs: seq<T>, ys: seq<T>, f: T -> seq<Token>)
    ensures |EncodeAll(FlatMap(xs + ys, f))| == |EncodeAll(FlatMap(xs, f))| + |EncodeAll(FlatMap(ys, f))|
  {
    FlatMapAppend(xs, ys, f);
    EncodeAllAppend(FlatMap(xs, f), FlatMap(ys, f));
  }

  function MapLength<V>(m: map<Bytes, V>, f: ((Bytes, V)) -> seq<Token>): nat {
    |EncodeAll(FlatMap(SortedEntries(m), f))|
  }

  lemma {:induction false} InsertPosition(x: Bytes, s: seq<Bytes>) returns (i: nat)
    ensures i <= |s| && Insert(Self, x, s) == s[..i] + [x] + s[i..]
  {
    if s == [] || LexLe(x, s[0]) {
      i := 0;
    } else {
      var t := s[1..];
      var n := InsertPosition(x, t);
      i := n + 1;
      assert s[..i] == [s[0]] + t[..n] && s[i..] == t[n..];
      assert [s[0]] + (t[..n] + [x] + t[n..]) == ([s[0]] + t[..n]) + [x] + t[n..];
    }
  }

  lemma SortedKeysInsert(keys: set<Bytes>, k: Bytes)
    requires k !in keys
    ensures SortedKeys(keys + {k}) == Insert(Self, k, SortedKeys(keys))
  {
    var s := SortedKeys(keys);
    SortedKeysSpec(keys);
    SortedKeysSpec(keys + {k});
    InsertedDistinct(k, s);
    InsertSorted(Self, k, s);
    DistinctMultiset(Insert(Self, k, s), SortedKeys(keys + {k}));
    SortedUnique(Self, Insert(Self, k, s), SortedKeys(keys + {k}));
  }

  lemma SortedEntriesInsert<V>(m: map<Bytes, V>, k: Bytes, v: V) returns (i: nat)
    requires k !in m
    ensures i <= |m|
    ensures SortedEntries(m[k := v]) == SortedEntries(m)[..i] + [(k, v)] + SortedEntries(m)[i..]
  {
    i := SortedKeysInsertAt(m.Keys, k);
    assert m[k := v].Keys == m.Keys + {k};
    assert |m.Keys| == |m|;
    EntriesInserted(SortedKeys(m.Keys), SortedKeys(m[k := v].Keys), m, k, v, i);
  }

  lemma EntriesInserted<V>(ks: seq<Bytes>, all: seq<Bytes>, m: map<Bytes, V>, k: Bytes, v: V, i: nat)
    requires i <= |ks| && k !in m && forall x :: x in ks ==> x in m
    requires all == ks[..i] + [k] + ks[i..]
    ensures forall x :: x in all ==> x in m[k := v]
    ensures EntriesAt(all, m[k := v]) == EntriesAt(ks, m)[..i] + [(k, v)] + EntriesAt(ks, m)[i..]
  {
    EntriesAtSplit(ks, m, k, v, i);
  }

  lemma SortedKeysInsertAt(keys: set<Bytes>, k: Bytes) returns (i: nat)
    requires k !in keys
    ensures i <= |keys| && SortedKeys(keys + {k}) == SortedKeys(keys)[..i] + [k] + SortedKeys(keys)[i..]
  {
    SortedKeysInsert(keys, k);
    i := InsertPosition(k, SortedKeys(keys));
  }

  lemma EntriesAtSplit<V>(ks: seq<Bytes>, m: map<Bytes, V>, k: Bytes, v: V, i: nat)
    requires i <= |ks| && k !in m && forall x :: x in ks ==> x in m
    ensures EntriesAt(ks[..i] + [k] + ks[i..], m[k := v]) == EntriesAt(ks, m)[..i] + [(k, v)] + EntriesAt(ks, m)[i..]
  {
  }

  lemma LengthWithItem<T>(es: seq<T>, i: nat, e: T, f: T -> seq<Token>)
    requires i <= |es|
    ensures |EncodeAll(FlatMap(es[..i] + [e] + es[i..], f))| == |EncodeAll(FlatMap(es, f))| + |EncodeAll(f(e))|
  {
    var a, b := es[..i], es[i..];
    assert es == a + b;
    EncodedLength(a + [e], b, f);
    EncodedLength(a, [e], f);
    EncodedLength(a, b, f);
    assert FlatMap([e], f) == f(e) by {
      assert [e][1..] == [];
      assert f(e) + [] == f(e);
    }
  }

  lemma MapLengthInsert<V>(m: map<Bytes, V>, k: Bytes, v: V, f: ((Bytes, V)) -> seq<Token>)
    requires k !in m
    ensures MapLength(m[k := v], f) == MapLength(m, f) + |EncodeAll(f((k, v)))|
  {
    var i := SortedEntriesInsert(m, k, v);
    LengthWithItem(SortedEntries(m), i, (k, v), f);
  }

  lemma MapLengthRemove<V>(m: map<Bytes, V>, k: Bytes, f: ((Bytes, V)) -> seq<Token>)
    requires k in m && EncodeAll(f((k, m[k]))) != []
    ensures MapLength(m - {k}, f) < MapLength(m, f)
  {
    assert m == (m - {k})[k := m[k]];
    MapLengthInsert(m - {k}, k, m[k], f);
  }

  /** A submap with the same tokens has a shorter encoding, unless it has all the keys. */
  lemma {:induction false} SubmapLength<V(!new)>(n: map<Bytes, V>, m: map<Bytes, V>, f: ((Bytes, V)) -> seq<Token>)
    requires SameTokensOn(n, m, f)
    requires forall e :: EncodeAll(f(e)) != []
    ensures MapLength(n, f) <= MapLength(m, f)
    ensures MapLength(n, f) == MapLength(m, f) <==> n.Keys == m.Keys
    decreases m.Keys
  {
    if n.Keys == m.Keys {
      SameKeysSameLength(n, m, f);
    } else {
      var k := MissingKey(n.Keys, m.Keys);
      MapLengthRemove(m, k, f);
      SubmapWithout(n, m, k, f);
      SubmapLength(n, m - {k}, f);
    }
  }

  ghost predicate SameTokensOn<V(!new)>(n: map<Bytes, V>, m: map<Bytes, V>, f: ((Bytes, V)) -> seq<Token>) {
    forall k :: k in n ==> k in m && f((k, n[k])) == f((k, m[k]))
  }

  lemma MissingKey(a: set<Bytes>, b: set<Bytes>) returns (k: Bytes)
    requires a <= b && a != b
    ensures k in b && k !in a
  {
    assert !(b <= a);
    k :| k in b && k !in a;
  }

  lemma SubmapWithout<V(!new)>(n: map<Bytes, V>, m: map<Bytes, V>, k: Bytes, f: ((Bytes, V)) -> seq<Token>)
    requires SameTokensOn(n, m, f) && k in m && k !in n
    ensures SameTokensOn(n, m - {k}, f) && (m - {k}).Keys < m.Keys
  {
    assert (m - {k}).Keys == m.Keys - {k};
  }

  lemma SameKeysSameLength<V(!new)>(n: map<Bytes, V>, m: map<Bytes, V>, f: ((Bytes, V)) -> seq<Token>)
    requires n.Keys == m.Keys && SameTokensOn(n, m, f)
    ensures FlatMap(SortedEntries(n), f) == FlatMap(SortedEntries(m), f)
  {
    SortedEntriesKeys(n, m);
    SortedEntriesSpec(n);
    SortedEntriesSpec(m);
    var es, ds := SortedEntries(n), SortedEntries(m);
    forall i | 0 <= i < |es| ensures f(es[i]) == f(ds[i]) {
      assert es[i] == (es[i].0, n[es[i].0]) && ds[i] == (es[i].0, m[es[i].0]);
    }
    FlatMapSame(es, ds, f);
  }

  lemma {:induction false} FramesLengthWithout(s: seq<Bytes>, i: nat)
    requires i < |s|
    ensures |FrameAll(s)| == |FrameAll(s[..i] + s[i + 1..])| + WORD_BYTES + |s[i]|
  {
    var a, b := s[..i], s[i + 1..];
    assert s == a + ([s[i]] + b);
    EncodedLength(a, [s[i]] + b, FrameToken);
    EncodedLength([s[i]], b, FrameToken);
    EncodedLength(a, b, FrameToken);
    OneFrame(s[i]);
    EncodeOne(Framed(s[i]));
  }

  lemma ConsDistinct(x: Bytes, t: seq<Bytes>)
    ensures Distinct([x] + t) <==> x !in t && Distinct(t)
  {
    var s := [x] + t;
    assert forall j :: 0 <= j < |t| ==> t[j] == s[j + 1];
    assert Distinct(s) ==> Distinct(t);
    forall j | Distinct(s) && 0 <= j < |t| ensures t[j] != x {
      assert s[0] == x && s[j + 1] == t[j];
    }
  }

  /** Removing duplicates shortens a frame list. */
  lemma {:induction false} DedupLength(d: seq<Bytes>, s: seq<Bytes>)
    requires Distinct(d) && forall x :: x in d <==> x in s
    ensures |FrameAll(d)| <= |FrameAll(s)|
    ensures |FrameAll(d)| == |FrameAll(s)| <==> Distinct(s)
    decreases |s|
  {
    if s == [] {
      assert forall i :: 0 <= i < |d| ==> d[i] in s;
    } else {
      var x, t := s[0], s[1..];
      FrameAllCons(s);
      assert s == [x] + t;
      ConsDistinct(x, t);
      if x in t {
        DedupLength(d, t);
      } else {
        assert x in d;
        var i :| 0 <= i < |d| && d[i] == x;
        DistinctWithout(d, i);
        FramesLengthWithout(d, i);
        DedupLength(d[..i] + d[i + 1..], t);
      }
    }
  }

  lemma DistinctWithout(d: seq<Bytes>, i: nat)
    requires Distinct(d) && i < |d|
    ensures var r := d[..i] + d[i + 1..];
      Distinct(r) && forall x :: x in r <==> x in d && x != d[i]
  {
    var r := d[..i] + d[i + 1..];
    assert forall j :: 0 <= j < |r| ==> r[j] == if j < i then d[j] else d[j + 1];
    forall x | x in d && x != d[i] ensures x in r {
      var j :| 0 <= j < |d| && d[j] == x;
      if j < i { assert r[j] == x; } else { assert r[j - 1] == x; }
    }
  }

  lemma SortBytesDistinct(s: seq<Bytes>)
    ensures Distinct(SortBytes(s)) <==> Distinct(s)
    ensures forall x :: x in SortBytes(s) <==> x in s
  {
    var r := SortBytes(s);
    SameElements(r, s);
    if Distinct(s) {
      forall x ensures multiset(r)[x] <= 1 { DistinctCount(s, x); }
      DistinctFromCount(r);
    }
    if Distinct(r) {
      forall x ensures multiset(s)[x] <= 1 { DistinctCount(r, x); }
      DistinctFromCount(s);
    }
  }

  lemma HeadsLength(h: seq<Bytes>, s: seq<Bytes>)
    requires Enumerates(h, set id | id in s)
    ensures |FrameAll(SortBytes(h))| <= |FrameAll(SortBytes(s))|
    ensures |FrameAll(SortBytes(h))| == |FrameAll(SortBytes(s))| <==> Distinct(s)
  {
    SortBytesDistinct(h);
    SortBytesDistinct(s);
    DedupLength(SortBytes(h), SortBytes(s));
  }

  lemma RemoteTokensNonEmpty(e: (Bytes, RemoteRef))
    ensures EncodeAll(RemoteTokens(e)) != []
  {
    assert RemoteTokens(e)[0] == Framed(e.0);
    assert |Encode(Framed(e.0))| >= WORD_BYTES;
  }

  lemma KeptRemotesTokens(m: map<Bytes, RemoteRef>)
    ensures forall k :: k in KeptRemotes(m) ==> RemoteTokens((k, KeptRemotes(m)[k])) == RemoteTokens((k, m[k]))
  {
    forall k | k in KeptRemotes(m) ensures RemoteTokens((k, KeptRemotes(m)[k])) == RemoteTokens((k, m[k])) {
      KeptTokens(k, m[k]);
    }
  }

  lemma KeptAllKeys(m: map<Bytes, RemoteRef>)
    ensures KeptRemotes(m).Keys <= m.Keys
    ensures KeptRemotes(m).Keys == m.Keys <==> forall k :: k in m ==> AT in k
  {
    if KeptRemotes(m).Keys == m.Keys {
      forall k | k in m ensures AT in k { assert k in KeptRemotes(m).Keys; }
    }
  }

  lemma RemotesLength(m: map<Bytes, RemoteRef>)
    ensures MapLength(KeptRemotes(m), RemoteTokens) <= MapLength(m, RemoteTokens)
    ensures MapLength(KeptRemotes(m), RemoteTokens) == MapLength(m, RemoteTokens) <==> forall k :: k in m ==> AT in k
  {
    KeptRemotesTokens(m);
    KeptAllKeys(m);
    forall e: (Bytes, RemoteRef) ensures EncodeAll(RemoteTokens(e)) != [] { RemoteTokensNonEmpty(e); }
    SubmapLength(KeptRemotes(m), m, RemoteTokens);
  }

  // ---------- Writing back what was read ----------

  /** The view that a client sends when it writes back what it read as `p`. */
  function WrittenBack(p: View, headIds: seq<Bytes>): View {
    ViewToProto(ViewFromProto(p), headIds)
  }

  lemma WrittenBackParts(p: View, headIds: seq<Bytes>)
    ensures var q := WrittenBack(p, headIds);
      q.wcCommitIds == p.wcCommitIds && q.localBookmarks == p.localBookmarks
      && q.remoteBookmarks == KeptRemotes(p.remoteBookmarks) && q.headIds == headIds
  {
    LocalsKept(p.localBookmarks);
    RemotesKept(p.remoteBookmarks);
  }

  predicate AllKeysSplit(p: View) {
    forall k :: k in p.remoteBookmarks ==> AT in k
  }

  lemma SplitViewSame(p: View, headIds: seq<Bytes>)
    requires Enumerates(headIds, set id | id in p.headIds) && Distinct(p.headIds) && AllKeysSplit(p)
    ensures ViewPreimage(WrittenBack(p, headIds)) == ViewPreimage(p)
  {
    WrittenBackParts(p, headIds);
    DistinctMultiset(headIds, p.headIds);
    SortBytesPermutation(headIds, p.headIds);
    KeptAllKeys(p.remoteBookmarks);
    KeptRemotesTokens(p.remoteBookmarks);
    SameKeysSameLength(KeptRemotes(p.remoteBookmarks), p.remoteBookmarks, RemoteTokens);
  }

  lemma ViewPreimageLength(v: View)
    ensures |ViewPreimage(v)|
         == |FrameAll(SortBytes(v.headIds))| + |EncodeAll(WcTokens(v))| + |EncodeAll(LocalTokens(v))|
            + MapLength(v.remoteBookmarks, RemoteTokens)
  {
    ViewPreimageParts(v);
  }

  /** For any stored view, whoever wrote it: reading it and writing it back gives the same buffer,
      and so the same id, exactly when its head ids are distinct and every remote key has an '@'. */
  lemma ReadBackStable(p: View, headIds: seq<Bytes>)
    requires Enumerates(headIds, set id | id in p.headIds)
    ensures ViewPreimage(WrittenBack(p, headIds)) == ViewPreimage(p) <==> Distinct(p.headIds) && AllKeysSplit(p)
  {
    if Distinct(p.headIds) && AllKeysSplit(p) {
      SplitViewSame(p, headIds);
    } else {
      WrittenBackParts(p, headIds);
      ViewPreimageLength(p);
      ViewPreimageLength(WrittenBack(p, headIds));
      HeadsLength(headIds, p.headIds);
      RemotesLength(p.remoteBookmarks);
    }
  }

  /** Every view a client writes, '@' in remote names included, gets the same id when it is read
      and written back. */
  lemma ViewIdStable(blob: BlobHash, v: JjView, headIds: seq<Bytes>, headIds': seq<Bytes>)
    requires Enumerates(headIds, v.headIds)
    requires Enumerates(headIds', ViewFromProto(ViewToProto(v, headIds)).headIds)
    ensures var p := ViewToProto(v, headIds);
      ViewId(blob, ViewToProto(ViewFromProto(p), headIds')) == ViewId(blob, p)
  {
    var p := ViewToProto(v, headIds);
    forall k | k in p.remoteBookmarks ensures AT in k {
      RemoteBookmarksPrint(v.remoteViews, k);
    }
    ReadBackStable(p, headIds');
  }

  /** The id does not depend on the order in which the client enumerates the heads either. */
  lemma ViewIdOrderFree(blob: BlobHash, v: JjView, headIds: seq<Bytes>, headIds': seq<Bytes>)
    requires Enumerates(headIds, v.headIds) && Enumerates(headIds', v.headIds)
    ensures ViewId(blob, ViewToProto(v, headIds)) == ViewId(blob, ViewToProto(v, headIds'))
  {
    DistinctMultiset(headIds, headIds');
    SortBytesPermutation(headIds, headIds');
  }
}
