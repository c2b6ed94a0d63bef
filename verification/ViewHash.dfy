/** What the buffer of hash_view determines about the view, and what it does not depend on. */
module ViewHash {
  import opened ByteStrings
  import opened Wrappers
  import opened Sorting
  import opened Frames
  import opened OpStoreProto
  import opened HashUtils

  // ---------- Equality up to the order of repeated fields ----------

  ghost predicate SameTarget(s: RefTarget, t: RefTarget) {
    multiset(s.removes) == multiset(t.removes) && multiset(s.adds) == multiset(t.adds)
  }

  ghost predicate SameRemote(r: RemoteRef, s: RemoteRef) {
    && r.isTracked == s.isTracked
    && r.target.Some? == s.target.Some?
    && (r.target.Some? ==> SameTarget(r.target.value, s.target.value))
  }

  ghost predicate MapsRelated<V>(m: map<Bytes, V>, n: map<Bytes, V>, rel: (V, V) -> bool) {
    m.Keys == n.Keys && forall k :: k in m ==> rel(m[k], n[k])
  }

  /** Equal except for the order of head ids and of the removes and adds inside each target. */
  ghost predicate SameView(v: View, w: View) {
    && multiset(v.headIds) == multiset(w.headIds)
    && v.wcCommitIds == w.wcCommitIds
    && MapsRelated(v.localBookmarks, w.localBookmarks, SameTarget)
    && MapsRelated(v.remoteBookmarks, w.remoteBookmarks, SameRemote)
  }

  // ---------- Shape: the counts that the buffer leaves out ----------

  ghost predicate TargetShape(s: RefTarget, t: RefTarget) {
    |s.removes| == |t.removes| && |s.adds| == |t.adds|
  }

  ghost predicate RemoteShape(r: RemoteRef, s: RemoteRef) {
    && r.target.Some? == s.target.Some?
    && (r.target.Some? ==> TargetShape(r.target.value, s.target.value))
  }

  /** Position by position in sorted key order, equally large. */
  ghost predicate MapShape<V>(m: map<Bytes, V>, n: map<Bytes, V>, shape: (V, V) -> bool) {
    |m| == |n| && forall i :: 0 <= i < |m| ==> shape(SortedEntries(m)[i].1, SortedEntries(n)[i].1)
  }

  ghost predicate SameShape(v: View, w: View) {
    && |v.headIds| == |w.headIds|
    && |v.wcCommitIds| == |w.wcCommitIds|
    && MapShape(v.localBookmarks, w.localBookmarks, TargetShape)
    && MapShape(v.remoteBookmarks, w.remoteBookmarks, RemoteShape)
  }

  // ---------- Canonicity ----------

  lemma RefTargetCanonical(s: RefTarget, t: RefTarget)
    requires SameTarget(s, t)
    ensures RefTargetTokens(s) == RefTargetTokens(t)
  {
    SortBytesPermutation(s.removes, t.removes);
    SortBytesPermutation(s.adds, t.adds);
  }

  lemma EntriesCanonical<V>(
    m: map<Bytes, V>, n: map<Bytes, V>, rel: (V, V) -> bool, f: ((Bytes, V)) -> seq<Token>)
    requires MapsRelated(m, n, rel)
    requires forall k, a, b :: rel(a, b) ==> f((k, a)) == f((k, b))
    ensures FlatMap(SortedEntries(m), f) == FlatMap(SortedEntries(n), f)
  {
    var es, ds := SortedEntries(m), SortedEntries(n);
    SortedEntriesKeys(m, n);
    SortedEntriesSpec(m);
    SortedEntriesSpec(n);
    forall i | 0 <= i < |es| ensures f(es[i]) == f(ds[i]) {
      assert es[i] == (es[i].0, es[i].1) && ds[i] == (es[i].0, ds[i].1);
      assert rel(es[i].1, ds[i].1);
    }
    FlatMapSame(es, ds, f);
  }

  /** hash_view builds one buffer for any order of head ids and of the terms inside each target. */
  lemma ViewPreimageCanonical(v: View, w: View)
    requires SameView(v, w)
    ensures ViewPreimage(v) == ViewPreimage(w)
  {
    SortBytesPermutation(v.headIds, w.headIds);
    forall k: Bytes, a, b | SameTarget(a, b) ensures BookmarkTokens((k, a)) == BookmarkTokens((k, b)) {
      RefTargetCanonical(a, b);
    }
    EntriesCanonical(v.localBookmarks, w.localBookmarks, SameTarget, BookmarkTokens);
    forall k: Bytes, a, b | SameRemote(a, b) ensures RemoteTokens((k, a)) == RemoteTokens((k, b)) {
      if a.target.Some? { RefTargetCanonical(a.target.value, b.target.value); }
    }
    EntriesCanonical(v.remoteBookmarks, w.remoteBookmarks, SameRemote, RemoteTokens);
  }

  // ---------- Decoding at a fixed shape ----------

  lemma {:induction false} FrameTokensShape(fs: seq<Bytes>)
    ensures |FlatMap(fs, FrameToken)| == |fs|
    ensures forall i :: 0 <= i < |fs| ==> FlatMap(fs, FrameToken)[i] == Framed(fs[i])
  {
    if fs == [] {
    } else {
      FrameTokensShape(fs[1..]);
      assert FlatMap(fs, FrameToken) == [Framed(fs[0])] + FlatMap(fs[1..], FrameToken);
    }
  }

  lemma SortedFramesDecode(a: seq<Bytes>, b: seq<Bytes>)
    requires |a| == |b|
    ensures SameKinds(FlatMap(SortBytes(a), FrameToken), FlatMap(SortBytes(b), FrameToken))
    ensures FlatMap(SortBytes(a), FrameToken) == FlatMap(SortBytes(b), FrameToken) ==> multiset(a) == multiset(b)
  {
    FrameTokensShape(SortBytes(a));
    FrameTokensShape(SortBytes(b));
    if FlatMap(SortBytes(a), FrameToken) == FlatMap(SortBytes(b), FrameToken) {
      FramesEqual(SortBytes(a), SortBytes(b));
      SortBytesPermutation(a, b);
    }
  }

  lemma TargetTokensDecode(s: RefTarget, t: RefTarget)
    requires TargetShape(s, t)
    ensures SameKinds(RefTargetTokens(s), RefTargetTokens(t))
    ensures RefTargetTokens(s) == RefTargetTokens(t) ==> SameTarget(s, t)
  {
    SortedFramesDecode(s.removes, t.removes);
    SortedFramesDecode(s.adds, t.adds);
    PrefixKinds(FlatMap(SortBytes(s.removes), FrameToken), FlatMap(SortBytes(s.adds), FrameToken),
                FlatMap(SortBytes(t.removes), FrameToken), FlatMap(SortBytes(t.adds), FrameToken));
  }

  /** `f` lays out entries so that equally shaped values give equal kinds, and equal tokens
      give equal keys and related values. */
  ghost predicate DecodableEntries<V(!new)>(
    f: ((Bytes, V)) -> seq<Token>, shape: (V, V) -> bool, rel: (V, V) -> bool)
  {
    forall k, a, l, b :: shape(a, b) ==>
      && SameKinds(f((k, a)), f((l, b)))
      && (f((k, a)) == f((l, b)) ==> k == l && rel(a, b))
  }

  lemma PrefixKinds(h: seq<Token>, s: seq<Token>, g: seq<Token>, t: seq<Token>)
    requires |h| == |g|
    ensures SameKinds(h, g) && SameKinds(s, t) ==> SameKinds(h + s, g + t)
    ensures h + s == g + t ==> h == g && s == t
  {
    assert h == (h + s)[..|h|] && g == (g + t)[..|g|];
    assert s == (h + s)[|h|..] && t == (g + t)[|g|..];
  }

  lemma BookmarkDecode(k: Bytes, a: RefTarget, l: Bytes, b: RefTarget)
    requires TargetShape(a, b)
    ensures SameKinds(BookmarkTokens((k, a)), BookmarkTokens((l, b)))
    ensures BookmarkTokens((k, a)) == BookmarkTokens((l, b)) ==> k == l && SameTarget(a, b)
  {
    TargetTokensDecode(a, b);
    PrefixKinds([Framed(k)], RefTargetTokens(a), [Framed(l)], RefTargetTokens(b));
    assert [Framed(k)] == [Framed(l)] ==> [Framed(k)][0].bytes == [Framed(l)][0].bytes;
  }

  lemma BookmarksDecodable()
    ensures DecodableEntries(BookmarkTokens, TargetShape, SameTarget)
  {
    forall k, a, l, b | TargetShape(a, b)
      ensures SameKinds(BookmarkTokens((k, a)), BookmarkTokens((l, b)))
      ensures BookmarkTokens((k, a)) == BookmarkTokens((l, b)) ==> k == l && SameTarget(a, b)
    {
      BookmarkDecode(k, a, l, b);
    }
  }

  lemma OptionalTargetDecode(s: Option<RefTarget>, t: Option<RefTarget>)
    requires s.Some? == t.Some? && (s.Some? ==> TargetShape(s.value, t.value))
    ensures SameKinds(OptionalTargetTokens(s), OptionalTargetTokens(t))
    ensures OptionalTargetTokens(s) == OptionalTargetTokens(t) && s.Some? ==> SameTarget(s.value, t.value)
  {
    if s.Some? { TargetTokensDecode(s.value, t.value); }
  }

  lemma RemoteHeader(k: Bytes, on: bool, l: Bytes, on': bool)
    ensures SameKinds([Framed(k), Flag(on)], [Framed(l), Flag(on')])
    ensures [Framed(k), Flag(on)] == [Framed(l), Flag(on')] ==> k == l && on == on'
  {
    var s, t := [Framed(k), Flag(on)], [Framed(l), Flag(on')];
    assert s == t ==> s[0].bytes == t[0].bytes && s[1].on == t[1].on;
  }

  lemma RemoteDecode(k: Bytes, a: RemoteRef, l: Bytes, b: RemoteRef)
    requires RemoteShape(a, b)
    ensures SameKinds(RemoteTokens((k, a)), RemoteTokens((l, b)))
    ensures RemoteTokens((k, a)) == RemoteTokens((l, b)) ==> k == l && SameRemote(a, b)
  {
    OptionalTargetDecode(a.target, b.target);
    RemoteHeader(k, a.isTracked, l, b.isTracked);
    PrefixKinds([Framed(k), Flag(a.isTracked)], OptionalTargetTokens(a.target),
                [Framed(l), Flag(b.isTracked)], OptionalTargetTokens(b.target));
  }

  lemma RemotesDecodable()
    ensures DecodableEntries(RemoteTokens, RemoteShape, SameRemote)
  {
    forall k, a, l, b | RemoteShape(a, b)
      ensures SameKinds(RemoteTokens((k, a)), RemoteTokens((l, b)))
      ensures RemoteTokens((k, a)) == RemoteTokens((l, b)) ==> k == l && SameRemote(a, b)
    {
      RemoteDecode(k, a, l, b);
    }
  }

  lemma PairsDecodable()
    ensures DecodableEntries(PairTokens, (a: Bytes, b: Bytes) => true, (a: Bytes, b: Bytes) => a == b)
  {
  }

  /** Decodes one sorted map from the front of two equal buffers. */
  lemma EntriesDecode<V(!new)>(
    m: map<Bytes, V>, x: Bytes, n: map<Bytes, V>, y: Bytes,
    f: ((Bytes, V)) -> seq<Token>, shape: (V, V) -> bool, rel: (V, V) -> bool)
    requires DecodableEntries(f, shape, rel) && MapShape(m, n, shape)
    requires AllFit(FlatMap(SortedEntries(m), f)) && AllFit(FlatMap(SortedEntries(n), f))
    requires EncodeAll(FlatMap(SortedEntries(m), f)) + x == EncodeAll(FlatMap(SortedEntries(n), f)) + y
    ensures MapsRelated(m, n, rel) && x == y
  {
    var es, ds := SortedEntries(m), SortedEntries(n);
    FlatMapFits(es, f);
    FlatMapFits(ds, f);
    forall i | 0 <= i < |es| ensures SameKinds(f(es[i]), f(ds[i])) {
      assert shape(es[i].1, ds[i].1);
      assert es[i] == (es[i].0, es[i].1) && ds[i] == (ds[i].0, ds[i].1);
    }
    FlatMapInjective(es, x, ds, y, f);
    forall i | 0 <= i < |es| ensures es[i].0 == ds[i].0 && rel(es[i].1, ds[i].1) {
      assert shape(es[i].1, ds[i].1);
      assert es[i] == (es[i].0, es[i].1) && ds[i] == (ds[i].0, ds[i].1);
      assert f(es[i]) == f(ds[i]);
    }
    SortedEntriesSameKeys(m, n);
    SortedEntriesSpec(n);
    forall k | k in m ensures rel(m[k], n[k]) {
      var i := SortedEntryAt(m, k);
      assert n[k] == ds[i].1;
    }
  }

  lemma HeadsDecode(a: seq<Bytes>, x: Bytes, b: seq<Bytes>, y: Bytes)
    requires |a| == |b|
    requires AllFit(FlatMap(SortBytes(a), FrameToken)) && AllFit(FlatMap(SortBytes(b), FrameToken))
    requires EncodeAll(FlatMap(SortBytes(a), FrameToken)) + x == EncodeAll(FlatMap(SortBytes(b), FrameToken)) + y
    ensures multiset(a) == multiset(b) && x == y
  {
    var s, t := FlatMap(SortBytes(a), FrameToken), FlatMap(SortBytes(b), FrameToken);
    FrameTokensShape(SortBytes(a));
    FrameTokensShape(SortBytes(b));
    EncodeAllInjective(s, x, t, y);
    FramesEqual(SortBytes(a), SortBytes(b));
    SortBytesPermutation(a, b);
  }

  lemma ViewPreimageParts(v: View)
    ensures ViewPreimage(v)
         == EncodeAll(HeadTokens(v)) + (EncodeAll(WcTokens(v)) + (EncodeAll(LocalTokens(v)) + (EncodeAll(RemotesTokens(v)) + [])))
    ensures AllFit(ViewTokens(v)) ==>
              AllFit(HeadTokens(v)) && AllFit(WcTokens(v)) && AllFit(LocalTokens(v)) && AllFit(RemotesTokens(v))
  {
    var a, b, c, d := HeadTokens(v), WcTokens(v), LocalTokens(v), RemotesTokens(v);
    EncodeAllAppend(c, d);
    EncodeAllAppend(b, c + d);
    EncodeAllAppend(a, b + (c + d));
    assert EncodeAll(d) + [] == EncodeAll(d);
    if AllFit(ViewTokens(v)) {
      FitsParts(a, b + (c + d));
      FitsParts(b, c + d);
      FitsParts(c, d);
    }
  }

  lemma BookmarkPartsDecode(v: View, w: View)
    requires AllFit(LocalTokens(v)) && AllFit(RemotesTokens(v))
    requires AllFit(LocalTokens(w)) && AllFit(RemotesTokens(w))
    requires MapShape(v.localBookmarks, w.localBookmarks, TargetShape)
    requires MapShape(v.remoteBookmarks, w.remoteBookmarks, RemoteShape)
    requires EncodeAll(LocalTokens(v)) + (EncodeAll(RemotesTokens(v)) + [])
          == EncodeAll(LocalTokens(w)) + (EncodeAll(RemotesTokens(w)) + [])
    ensures MapsRelated(v.localBookmarks, w.localBookmarks, SameTarget)
    ensures MapsRelated(v.remoteBookmarks, w.remoteBookmarks, SameRemote)
  {
    BookmarksDecodable();
    EntriesDecode(v.localBookmarks, EncodeAll(RemotesTokens(v)) + [],
                  w.localBookmarks, EncodeAll(RemotesTokens(w)) + [], BookmarkTokens, TargetShape, SameTarget);
    RemotesDecodable();
    EntriesDecode(v.remoteBookmarks, [], w.remoteBookmarks, [], RemoteTokens, RemoteShape, SameRemote);
  }

  lemma WcDecode(m: map<Bytes, Bytes>, x: Bytes, n: map<Bytes, Bytes>, y: Bytes)
    requires |m| == |n|
    requires AllFit(FlatMap(SortedEntries(m), PairTokens)) && AllFit(FlatMap(SortedEntries(n), PairTokens))
    requires EncodeAll(FlatMap(SortedEntries(m), PairTokens)) + x == EncodeAll(FlatMap(SortedEntries(n), PairTokens)) + y
    ensures m == n && x == y
  {
    PairsDecodable();
    EntriesDecode(m, x, n, y, PairTokens, (a: Bytes, b: Bytes) => true, (a: Bytes, b: Bytes) => a == b);
  }

  lemma ViewPreimageDecodes(v: View, w: View)
    requires AllFit(ViewTokens(v)) && AllFit(ViewTokens(w)) && SameShape(v, w)
    requires ViewPreimage(v) == ViewPreimage(w)
    ensures SameView(v, w)
  {
    ViewPreimageParts(v);
    ViewPreimageParts(w);
    var cv := EncodeAll(LocalTokens(v)) + (EncodeAll(RemotesTokens(v)) + []);
    var cw := EncodeAll(LocalTokens(w)) + (EncodeAll(RemotesTokens(w)) + []);
    HeadsDecode(v.headIds, EncodeAll(WcTokens(v)) + cv, w.headIds, EncodeAll(WcTokens(w)) + cw);
    WcDecode(v.wcCommitIds, cv, w.wcCommitIds, cw);
    BookmarkPartsDecode(v, w);
  }

  lemma RelatedShape<V>(m: map<Bytes, V>, n: map<Bytes, V>, rel: (V, V) -> bool, shape: (V, V) -> bool)
    requires MapsRelated(m, n, rel) && forall k :: k in m && k in n && rel(m[k], n[k]) ==> shape(m[k], n[k])
    ensures MapShape(m, n, shape)
  {
    SortedEntriesKeys(m, n);
    SortedEntriesSpec(m);
    SortedEntriesSpec(n);
    forall i | 0 <= i < |m| ensures shape(SortedEntries(m)[i].1, SortedEntries(n)[i].1) {
      assert SortedEntries(m)[i].0 in m && SortedEntries(n)[i].0 in n;
    }
  }

  lemma SameViewSameShape(v: View, w: View)
    requires SameView(v, w)
    ensures SameShape(v, w)
  {
    SameElements(v.headIds, w.headIds);
    assert |v.wcCommitIds| == |w.wcCommitIds|;
    forall s, t | SameTarget(s, t) ensures TargetShape(s, t) { SameTargetSameShape(s, t); }
    forall r, s | SameRemote(r, s) ensures RemoteShape(r, s) {
      if r.target.Some? { SameTargetSameShape(r.target.value, s.target.value); }
    }
    RelatedShape(v.localBookmarks, w.localBookmarks, SameTarget, TargetShape);
    RelatedShape(v.remoteBookmarks, w.remoteBookmarks, SameRemote, RemoteShape);
  }

  lemma SameTargetSameShape(s: RefTarget, t: RefTarget)
    requires SameTarget(s, t)
    ensures TargetShape(s, t)
  {
    SameElements(s.removes, t.removes);
    SameElements(s.adds, t.adds);
  }

  /** For any two views: they are equal up to order exactly when they have one buffer and one shape. */
  lemma ViewPreimageCharacterised(v: View, w: View)
    requires AllFit(ViewTokens(v)) && AllFit(ViewTokens(w))
    ensures SameView(v, w) <==> ViewPreimage(v) == ViewPreimage(w) && SameShape(v, w)
  {
    if SameView(v, w) {
      ViewPreimageCanonical(v, w);
      SameViewSameShape(v, w);
    } else if ViewPreimage(v) == ViewPreimage(w) && SameShape(v, w) {
      ViewPreimageDecodes(v, w);
    }
  }

  /** Without the shape the buffer is ambiguous: a removed and an added commit look alike. */
  lemma RemovesAndAddsCollide(name: Bytes, c: Bytes)
    ensures
      var v := View([], map[], map[name := RefTarget([c], [])], map[]);
      var w := View([], map[], map[name := RefTarget([], [c])], map[]);
      ViewPreimage(v) == ViewPreimage(w) && !SameView(v, w)
  {
    var s, t := RefTarget([c], []), RefTarget([], [c]);
    var m, n := map[name := s], map[name := t];
    var v, w := View([], map[], m, map[]), View([], map[], n, map[]);
    assert SortBytes([c]) == [c];
    assert FlatMap([c], FrameToken) + [] == [] + FlatMap([c], FrameToken);
    assert RefTargetTokens(s) == RefTargetTokens(t);
    SortedEntriesKeys(m, n);
    SortedEntriesSpec(m);
    SortedEntriesSpec(n);
    FlatMapSame(SortedEntries(m), SortedEntries(n), BookmarkTokens);
    assert multiset(s.removes) != multiset(t.removes) by {
      assert multiset([c])[c] == 1;
    }
  }
}
