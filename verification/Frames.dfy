/** The frame layer of the hash preimages: length-prefixed byte strings, raw words and flag bytes. */
module Frames {
  import opened ByteStrings
  import opened Wrappers

  datatype Token =
    | Framed(bytes: Bytes)   // append_length_prefixed_bytes / append_length_prefixed_str
    | Word(value: i64)       // i64::to_le_bytes
    | Flag(on: bool)         // (b as u8).to_le_bytes

  function Frame(b: Bytes): Bytes {
    U64Le(|b|) + b
  }

  function Encode(t: Token): Bytes {
    match t
    case Framed(b) => Frame(b)
    case Word(x) => I64Le(x)
    case Flag(b) => if b then [1] else [0]
  }

  function EncodeAll(ts: seq<Token>): Bytes {
    if ts == [] then [] else Encode(ts[0]) + EncodeAll(ts[1..])
  }

  lemma {:induction false} EncodeAllAppend(s: seq<Token>, t: seq<Token>)
    ensures EncodeAll(s + t) == EncodeAll(s) + EncodeAll(t)
  {
    if s == [] {
      assert s + t == t;
      assert [] + EncodeAll(t) == EncodeAll(t);
    } else {
      assert (s + t)[0] == s[0] && (s + t)[1..] == s[1..] + t;
      calc {
        EncodeAll(s + t);
        Encode(s[0]) + EncodeAll(s[1..] + t);
        { EncodeAllAppend(s[1..], t); }
        Encode(s[0]) + (EncodeAll(s[1..]) + EncodeAll(t));
        { Assoc(Encode(s[0]), EncodeAll(s[1..]), EncodeAll(t)); }
        EncodeAll(s) + EncodeAll(t);
      }
    }
  }

  lemma EncodeOne(t: Token)
    ensures EncodeAll([t]) == Encode(t)
  {
    assert EncodeAll([t]) == Encode(t) + EncodeAll([]);
  }

  /** Every byte string that exists in the program's memory is shorter than 2^64. */
  predicate Fits(t: Token) {
    t.Framed? ==> |t.bytes| < U64_LIMIT
  }

  predicate AllFit(ts: seq<Token>) {
    forall i :: 0 <= i < |ts| ==> Fits(ts[i])
  }

  lemma FitsParts(a: seq<Token>, b: seq<Token>)
    requires AllFit(a + b)
    ensures AllFit(a) && AllFit(b)
  {
    assert forall i :: 0 <= i < |a| ==> (a + b)[i] == a[i];
    assert forall i :: 0 <= i < |b| ==> (a + b)[|a| + i] == b[i];
  }

  predicate SameKind(s: Token, t: Token) {
    s.Framed? == t.Framed? && s.Word? == t.Word?
  }

  predicate SameKinds(ss: seq<Token>, ts: seq<Token>) {
    |ss| == |ts| && forall i :: 0 <= i < |ss| ==> SameKind(ss[i], ts[i])
  }

  // ---------- Prefix freedom ----------

  lemma Assoc(a: Bytes, b: Bytes, c: Bytes)
    ensures (a + b) + c == a + (b + c)
  {
  }

  lemma SplitConcat(a: Bytes, x: Bytes, b: Bytes, y: Bytes)
    requires |a| == |b| && a + x == b + y
    ensures a == b && x == y
  {
    assert a == (a + x)[..|a|] && b == (b + y)[..|b|];
    assert x == (a + x)[|a|..] && y == (b + y)[|b|..];
  }

  lemma FramePrefixFree(b: Bytes, x: Bytes, c: Bytes, y: Bytes)
    requires |b| < U64_LIMIT && |c| < U64_LIMIT
    requires Frame(b) + x == Frame(c) + y
    ensures b == c && x == y
  {
    Assoc(U64Le(|b|), b, x);
    Assoc(U64Le(|c|), c, y);
    SplitConcat(U64Le(|b|), b + x, U64Le(|c|), c + y);
    U64LeInjective(|b|, |c|);
    SplitConcat(b, x, c, y);
  }

  lemma TokenPrefixFree(s: Token, x: Bytes, t: Token, y: Bytes)
    requires Fits(s) && Fits(t) && SameKind(s, t)
    requires Encode(s) + x == Encode(t) + y
    ensures s == t && x == y
  {
    match s
    case Framed(b) =>
      FramePrefixFree(b, x, t.bytes, y);
    case Word(v) =>
      SplitConcat(I64Le(v), x, I64Le(t.value), y);
      I64LeInjective(v, t.value);
    case Flag(_) =>
      SplitConcat(Encode(s), x, Encode(t), y);
  }

  lemma {:induction false} EncodeAllInjective(ss: seq<Token>, x: Bytes, ts: seq<Token>, y: Bytes)
    requires AllFit(ss) && AllFit(ts) && SameKinds(ss, ts)
    requires EncodeAll(ss) + x == EncodeAll(ts) + y
    ensures ss == ts && x == y
  {
    if ss == [] {
      assert EncodeAll(ss) + x == x && EncodeAll(ts) + y == y;
    } else {
      var s', t' := ss[1..], ts[1..];
      Assoc(Encode(ss[0]), EncodeAll(s'), x);
      Assoc(Encode(ts[0]), EncodeAll(t'), y);
      TokenPrefixFree(ss[0], EncodeAll(s') + x, ts[0], EncodeAll(t') + y);
      EncodeAllInjective(s', x, t', y);
      assert ss == [ss[0]] + s' && ts == [ts[0]] + t';
    }
  }

  // ---------- Lists of items, each contributing some tokens ----------

  function FlatMap<T>(xs: seq<T>, f: T -> seq<Token>): seq<Token> {
    if xs == [] then [] else f(xs[0]) + FlatMap(xs[1..], f)
  }

  lemma TokenAssoc(a: seq<Token>, b: seq<Token>, c: seq<Token>)
    ensures (a + b) + c == a + (b + c)
  {
  }

  lemma {:induction false} FlatMapAppend<T>(xs: seq<T>, ys: seq<T>, f: T -> seq<Token>)
    ensures FlatMap(xs + ys, f) == FlatMap(xs, f) + FlatMap(ys, f)
  {
    if xs == [] {
      assert xs + ys == ys;
      assert [] + FlatMap(ys, f) == FlatMap(ys, f);
    } else {
      assert (xs + ys)[0] == xs[0] && (xs + ys)[1..] == xs[1..] + ys;
      FlatMapAppend(xs[1..], ys, f);
      TokenAssoc(f(xs[0]), FlatMap(xs[1..], f), FlatMap(ys, f));
    }
  }

  lemma {:induction false} FlatMapSame<T>(xs: seq<T>, ys: seq<T>, f: T -> seq<Token>)
    requires |xs| == |ys| && forall i :: 0 <= i < |xs| ==> f(xs[i]) == f(ys[i])
    ensures FlatMap(xs, f) == FlatMap(ys, f)
  {
    if xs == [] {
    } else {
      FlatMapSame(xs[1..], ys[1..], f);
    }
  }

  lemma {:induction false} FlatMapFits<T>(xs: seq<T>, f: T -> seq<Token>)
    ensures AllFit(FlatMap(xs, f)) <==> forall i :: 0 <= i < |xs| ==> AllFit(f(xs[i]))
  {
    if xs == [] {
    } else {
      FlatMapFits(xs[1..], f);
      var h, t := f(xs[0]), FlatMap(xs[1..], f);
      assert AllFit(h + t) <==> AllFit(h) && AllFit(t) by {
        assert forall i :: 0 <= i < |h| ==> (h + t)[i] == h[i];
        assert forall i :: 0 <= i < |t| ==> (h + t)[|h| + i] == t[i];
      }
    }
  }

  /** One more item at the end of a buffer under construction. */
  lemma EncodeSnoc<T>(xs: seq<T>, i: nat, f: T -> seq<Token>)
    requires i < |xs|
    ensures EncodeAll(FlatMap(xs[..i + 1], f)) == EncodeAll(FlatMap(xs[..i], f)) + EncodeAll(f(xs[i]))
  {
    assert xs[..i + 1] == xs[..i] + [xs[i]];
    FlatMapAppend(xs[..i], [xs[i]], f);
    assert FlatMap([xs[i]], f) == f(xs[i]) by {
      assert [xs[i]][1..] == [];
      assert f(xs[i]) + [] == f(xs[i]);
    }
    EncodeAllAppend(FlatMap(xs[..i], f), f(xs[i]));
  }

  lemma EncodeCons<T>(xs: seq<T>, x: Bytes, f: T -> seq<Token>)
    requires xs != []
    ensures EncodeAll(FlatMap(xs, f)) + x == EncodeAll(f(xs[0])) + (EncodeAll(FlatMap(xs[1..], f)) + x)
  {
    var h, t := f(xs[0]), FlatMap(xs[1..], f);
    EncodeAllAppend(h, t);
    Assoc(EncodeAll(h), EncodeAll(t), x);
  }

  /** Equal buffers of itemwise equally shaped lists come from itemwise equal tokens. */
  lemma {:induction false} FlatMapInjective<T>(
    xs: seq<T>, x: Bytes, ys: seq<T>, y: Bytes, f: T -> seq<Token>)
    requires |xs| == |ys|
    requires forall i :: 0 <= i < |xs| ==> SameKinds(f(xs[i]), f(ys[i])) && AllFit(f(xs[i])) && AllFit(f(ys[i]))
    requires EncodeAll(FlatMap(xs, f)) + x == EncodeAll(FlatMap(ys, f)) + y
    ensures forall i :: 0 <= i < |xs| ==> f(xs[i]) == f(ys[i])
    ensures x == y
  {
    if xs == [] {
      assert EncodeAll(FlatMap(xs, f)) + x == x && EncodeAll(FlatMap(ys, f)) + y == y;
    } else {
      var xr, yr := EncodeAll(FlatMap(xs[1..], f)), EncodeAll(FlatMap(ys[1..], f));
      EncodeCons(xs, x, f);
      EncodeCons(ys, y, f);
      EncodeAllInjective(f(xs[0]), xr + x, f(ys[0]), yr + y);
      FlatMapInjective(xs[1..], x, ys[1..], y, f);
    }
  }

  // ---------- Pure frame lists and their parser ----------

  function FrameToken(b: Bytes): seq<Token> {
    [Framed(b)]
  }

  function FrameAll(fs: seq<Bytes>): Bytes {
    EncodeAll(FlatMap(fs, FrameToken))
  }

  predicate AllShort(fs: seq<Bytes>) {
    forall i :: 0 <= i < |fs| ==> |fs[i]| < U64_LIMIT
  }

  lemma OneFrame(b: Bytes)
    ensures FlatMap([b], FrameToken) == [Framed(b)]
  {
    assert [b][1..] == [];
    assert FlatMap([b], FrameToken) == FrameToken(b) + [];
  }

  lemma FrameAllCons(fs: seq<Bytes>)
    requires fs != []
    ensures FrameAll(fs) == Frame(fs[0]) + FrameAll(fs[1..])
  {
    var t := FlatMap(fs[1..], FrameToken);
    assert FlatMap(fs, FrameToken) == [Framed(fs[0])] + t;
    assert ([Framed(fs[0])] + t)[1..] == t;
  }

  lemma {:induction false} FramesEqual(fs: seq<Bytes>, gs: seq<Bytes>)
    requires FlatMap(fs, FrameToken) == FlatMap(gs, FrameToken)
    ensures fs == gs
  {
    if fs == [] || gs == [] {
      assert fs == gs;
    } else {
      assert FlatMap(fs, FrameToken)[1..] == FlatMap(fs[1..], FrameToken);
      assert FlatMap(gs, FrameToken)[1..] == FlatMap(gs[1..], FrameToken);
      assert FlatMap(fs, FrameToken)[0] == Framed(fs[0]) && FlatMap(gs, FrameToken)[0] == Framed(gs[0]);
      FramesEqual(fs[1..], gs[1..]);
      assert fs == [fs[0]] + fs[1..] && gs == [gs[0]] + gs[1..];
    }
  }

  /** Reads a buffer back as a list of length-prefixed frames; None when it is not one. */
  function ParseFrames(buf: Bytes): (r: Option<seq<Bytes>>)
    decreases |buf|
  {
    if buf == [] then Some([])
    else if |buf| < WORD_BYTES then None
    else
      var n := FromLittleEndian(buf[..WORD_BYTES]);
      if |buf| < WORD_BYTES + n then None
      else
        match ParseFrames(buf[WORD_BYTES + n..])
        case None => None
        case Some(fs) => Some([buf[WORD_BYTES..WORD_BYTES + n]] + fs)
  }

  /** The parser decodes every frame list. */
  lemma {:induction false} ParseFramesDecodes(fs: seq<Bytes>)
    requires AllShort(fs)
    ensures ParseFrames(FrameAll(fs)) == Some(fs)
  {
    if fs == [] {
    } else {
      var buf := FrameAll(fs);
      FrameAllCons(fs);
      assert FromLittleEndian(U64Le(|fs[0]|)) == |fs[0]|;
      assert buf[..WORD_BYTES] == U64Le(|fs[0]|);
      assert buf[WORD_BYTES..WORD_BYTES + |fs[0]|] == fs[0];
      assert buf[WORD_BYTES + |fs[0]|..] == FrameAll(fs[1..]);
      ParseFramesDecodes(fs[1..]);
      assert fs == [fs[0]] + fs[1..];
    }
  }

  lemma ReadFrame(buf: Bytes, n: nat)
    requires |buf| >= WORD_BYTES + n && FromLittleEndian(buf[..WORD_BYTES]) == n
    ensures n < U64_LIMIT
    ensures buf == Frame(buf[WORD_BYTES..WORD_BYTES + n]) + buf[WORD_BYTES + n..]
  {
    U64LeOfValue(buf[..WORD_BYTES]);
    assert buf == (buf[..WORD_BYTES] + buf[WORD_BYTES..WORD_BYTES + n]) + buf[WORD_BYTES + n..];
  }

  /** The parser accepts nothing but frame lists, so parsing and framing are mutually inverse. */
  lemma {:induction false} ParseFramesSound(buf: Bytes)
    requires ParseFrames(buf).Some?
    ensures AllShort(ParseFrames(buf).value) && FrameAll(ParseFrames(buf).value) == buf
    decreases |buf|
  {
    if buf == [] {
    } else {
      var n := FromLittleEndian(buf[..WORD_BYTES]);
      var body, rest := buf[WORD_BYTES..WORD_BYTES + n], buf[WORD_BYTES + n..];
      ReadFrame(buf, n);
      ParseFramesSound(rest);
      var fs := ParseFrames(rest).value;
      assert ([body] + fs)[0] == body && ([body] + fs)[1..] == fs;
      FrameAllCons([body] + fs);
    }
  }

  lemma FrameAllInjective(fs: seq<Bytes>, gs: seq<Bytes>)
    requires AllShort(fs) && AllShort(gs) && FrameAll(fs) == FrameAll(gs)
    ensures fs == gs
  {
    ParseFramesDecodes(fs);
    ParseFramesDecodes(gs);
  }

  /** A shared prefix of frames cancels, whatever bytes follow. */
  lemma {:induction false} SharedPrefixCancels(fs: seq<Bytes>, x: Bytes, y: Bytes)
    requires FrameAll(fs) + x == FrameAll(fs) + y
    ensures x == y
  {
    SplitConcat(FrameAll(fs), x, FrameAll(fs), y);
  }

  // ---------- Appending to a buffer ----------

  method AppendLengthPrefixedBytes(buf: Bytes, bytes: Bytes) returns (r: Bytes)
    ensures r == buf + EncodeAll([Framed(bytes)]) == buf + (U64Le(|bytes|) + bytes)
  {
    r := buf + U64Le(|bytes|);
    r := r + bytes;
    assert EncodeAll([Framed(bytes)]) == Frame(bytes) + EncodeAll([]);
  }

  method AppendFrames(buf: Bytes, fs: seq<Bytes>) returns (r: Bytes)
    ensures r == buf + FrameAll(fs)
  {
    r := buf;
    AppendNothing(buf, fs, FrameToken);
    for i := 0 to |fs|
      invariant r == buf + EncodeAll(FlatMap(fs[..i], FrameToken))
    {
      r := AppendLengthPrefixedBytes(r, fs[i]);
      AppendItem(buf, fs, i, FrameToken);
    }
    assert fs[..|fs|] == fs;
  }

  lemma AppendNothing<T>(buf: Bytes, xs: seq<T>, f: T -> seq<Token>)
    ensures buf == buf + EncodeAll(FlatMap(xs[..0], f))
  {
    assert xs[..0] == [];
  }

  /** The step of every loop that appends one item after another to a buffer. */
  lemma AppendItem<T>(buf: Bytes, xs: seq<T>, i: nat, f: T -> seq<Token>)
    requires i < |xs|
    ensures buf + EncodeAll(FlatMap(xs[..i], f)) + EncodeAll(f(xs[i]))
         == buf + EncodeAll(FlatMap(xs[..i + 1], f))
  {
    EncodeSnoc(xs, i, f);
    Assoc(buf, EncodeAll(FlatMap(xs[..i], f)), EncodeAll(f(xs[i])));
  }
}
