/** What the buffer of hash_operation determines about the operation, and where it is ambiguous. */
module OperationHash {
  import opened ByteStrings
  import opened Wrappers
  import opened Sorting
  import opened Frames
  import opened OpStoreProto
  import opened HashUtils

  // ---------- The trailing frames: optional workspace, then attribute pairs ----------

  function Flatten(es: seq<(Bytes, Bytes)>): (fs: seq<Bytes>)
    ensures |fs| == 2 * |es|
  {
    if es == [] then [] else [es[0].0, es[0].1] + Flatten(es[1..])
  }

  lemma {:induction false} FlattenTokens(es: seq<(Bytes, Bytes)>)
    ensures FlatMap(es, PairTokens) == FlatMap(Flatten(es), FrameToken)
  {
    if es == [] {
    } else {
      FlattenTokens(es[1..]);
      var pair := [es[0].0, es[0].1];
      FlatMapAppend(pair, Flatten(es[1..]), FrameToken);
      assert FlatMap(pair, FrameToken) == PairTokens(es[0]) by {
        assert pair[1..] == [es[0].1] && [es[0].1][1..] == [];
      }
    }
  }

  lemma {:induction false} FlattenInjective(es: seq<(Bytes, Bytes)>, ds: seq<(Bytes, Bytes)>)
    requires Flatten(es) == Flatten(ds)
    ensures es == ds
  {
    assert |es| == |ds|;
    if es == [] {
    } else {
      var fs, gs := Flatten(es), Flatten(ds);
      assert fs[0] == es[0].0 && fs[1] == es[0].1 && fs[2..] == Flatten(es[1..]);
      assert gs[0] == ds[0].0 && gs[1] == ds[0].1 && gs[2..] == Flatten(ds[1..]);
      FlattenInjective(es[1..], ds[1..]);
      assert es == [es[0]] + es[1..] && ds == [ds[0]] + ds[1..];
    }
  }

  function TrailingFrames(m: OperationMetadata): seq<Bytes> {
    WorkspaceFrames(m) + Flatten(SortedEntries(m.attributes))
  }

  lemma TrailingIsFrames(m: OperationMetadata)
    ensures TrailingTokens(m) == FlatMap(TrailingFrames(m), FrameToken)
  {
    FlattenTokens(SortedEntries(m.attributes));
    FlatMapAppend(WorkspaceFrames(m), Flatten(SortedEntries(m.attributes)), FrameToken);
  }

  lemma {:induction false} FramesShort(fs: seq<Bytes>)
    requires AllFit(FlatMap(fs, FrameToken))
    ensures AllShort(fs)
  {
    FlatMapFits(fs, FrameToken);
    forall i | 0 <= i < |fs| ensures |fs[i]| < U64_LIMIT {
      assert AllFit(FrameToken(fs[i]));
      assert Fits(FrameToken(fs[i])[0]);
    }
  }

  /** Odd many trailing frames mean a workspace name, even many mean none. */
  lemma SplitByParity(w: seq<Bytes>, es: seq<(Bytes, Bytes)>, x: seq<Bytes>, ds: seq<(Bytes, Bytes)>)
    requires |w| <= 1 && |x| <= 1 && w + Flatten(es) == x + Flatten(ds)
    ensures w == x && es == ds
  {
    assert |w| + 2 * |es| == |x| + 2 * |ds|;
    assert |w| == |x|;
    assert w == (w + Flatten(es))[..|w|] && x == (x + Flatten(ds))[..|x|];
    assert Flatten(es) == (w + Flatten(es))[|w|..] && Flatten(ds) == (x + Flatten(ds))[|x|..];
    FlattenInjective(es, ds);
  }

  lemma TrailingFramesDecode(a: OperationMetadata, b: OperationMetadata)
    requires TrailingFrames(a) == TrailingFrames(b)
    ensures a.workspaceName == b.workspaceName && a.attributes == b.attributes
  {
    SplitByParity(WorkspaceFrames(a), SortedEntries(a.attributes), WorkspaceFrames(b), SortedEntries(b.attributes));
    SortedEntriesInjective(a.attributes, b.attributes);
    if a.workspaceName.Some? {
      assert WorkspaceFrames(a)[0] == WorkspaceFrames(b)[0];
    }
  }

  lemma TrailingDecode(a: OperationMetadata, b: OperationMetadata)
    requires AllFit(TrailingTokens(a)) && AllFit(TrailingTokens(b))
    requires EncodeAll(TrailingTokens(a)) == EncodeAll(TrailingTokens(b))
    ensures a.workspaceName == b.workspaceName && a.attributes == b.attributes
  {
    TrailingIsFrames(a);
    TrailingIsFrames(b);
    FramesShort(TrailingFrames(a));
    FramesShort(TrailingFrames(b));
    FrameAllInjective(TrailingFrames(a), TrailingFrames(b));
    TrailingFramesDecode(a, b);
  }

  // ---------- Parents end where the start time begins ----------

  /** No length prefix of `ps` reads as the time `t`. */
  predicate LengthsApart(ps: seq<Bytes>, t: i64) {
    forall p :: p in ps ==> |p| != AsWord(t)
  }

  lemma NotAParent(p: Bytes, x: Bytes, t: i64, y: Bytes)
    requires |p| < U64_LIMIT && |p| != AsWord(t)
    ensures Frame(p) + x != I64Le(t) + y
  {
    if Frame(p) + x == I64Le(t) + y {
      Assoc(U64Le(|p|), p, x);
      SplitConcat(U64Le(|p|), p + x, I64Le(t), y);
    }
  }

  /** Parents of any lengths are told apart from the start time that follows them, as long as no
      parent of one list has the other's start time for its length. */
  lemma {:induction false} ParentsDecode(ps: seq<Bytes>, s: i64, x: Bytes, qs: seq<Bytes>, t: i64, y: Bytes)
    requires AllShort(ps) && AllShort(qs) && LengthsApart(ps, t) && LengthsApart(qs, s)
    requires FrameAll(ps) + (I64Le(s) + x) == FrameAll(qs) + (I64Le(t) + y)
    ensures ps == qs && s == t && x == y
  {
    var sx, ty := I64Le(s) + x, I64Le(t) + y;
    if ps != [] { ParentFirst(ps, sx); }
    if qs != [] { ParentFirst(qs, ty); }
    if ps == [] && qs == [] {
      assert FrameAll(ps) + sx == sx && FrameAll(qs) + ty == ty;
      SplitConcat(I64Le(s), x, I64Le(t), y);
      I64LeInjective(s, t);
    } else if ps == [] {
      assert FrameAll(ps) + sx == sx;
      NotAParent(qs[0], FrameAll(qs[1..]) + ty, s, x);
    } else if qs == [] {
      assert FrameAll(qs) + ty == ty;
      NotAParent(ps[0], FrameAll(ps[1..]) + sx, t, y);
    } else {
      FramePrefixFree(ps[0], FrameAll(ps[1..]) + sx, qs[0], FrameAll(qs[1..]) + ty);
      ParentsDecode(ps[1..], s, x, qs[1..], t, y);
      assert ps == [ps[0]] + ps[1..] && qs == [qs[0]] + qs[1..];
    }
  }

  lemma ParentFirst(ps: seq<Bytes>, x: Bytes)
    requires ps != []
    ensures FrameAll(ps) + x == Frame(ps[0]) + (FrameAll(ps[1..]) + x)
  {
    FrameAllCons(ps);
    Assoc(Frame(ps[0]), FrameAll(ps[1..]), x);
  }

  // ---------- Predecessor groups, flattened ----------

  function PredecessorFrames(ps: seq<CommitPredecessors>): seq<Bytes> {
    if ps == [] then [] else [ps[0].commitId] + ps[0].predecessorIds + PredecessorFrames(ps[1..])
  }

  lemma OneGroup(p: CommitPredecessors)
    ensures PredecessorTokens(p) == FlatMap([p.commitId] + p.predecessorIds, FrameToken)
  {
    FlatMapAppend([p.commitId], p.predecessorIds, FrameToken);
    OneFrame(p.commitId);
  }

  lemma {:induction false} PredecessorsAreFrames(ps: seq<CommitPredecessors>)
    ensures FlatMap(ps, PredecessorTokens) == FlatMap(PredecessorFrames(ps), FrameToken)
  {
    if ps == [] {
      assert FlatMap(PredecessorFrames(ps), FrameToken) == [];
    } else {
      PredecessorsAreFrames(ps[1..]);
      OneGroup(ps[0]);
      FlatMapAppend([ps[0].commitId] + ps[0].predecessorIds, PredecessorFrames(ps[1..]), FrameToken);
    }
  }

  predicate SameGroupSizes(ps: seq<CommitPredecessors>, qs: seq<CommitPredecessors>) {
    |ps| == |qs| && forall i :: 0 <= i < |ps| ==> |ps[i].predecessorIds| == |qs[i].predecessorIds|
  }

  lemma GroupFirst(p: CommitPredecessors, x: seq<Bytes>, q: CommitPredecessors, y: seq<Bytes>)
    requires |p.predecessorIds| == |q.predecessorIds|
    requires [p.commitId] + p.predecessorIds + x == [q.commitId] + q.predecessorIds + y
    ensures p == q && x == y
  {
    var n := |p.predecessorIds|;
    var s, t := [p.commitId] + p.predecessorIds + x, [q.commitId] + q.predecessorIds + y;
    assert s[0] == p.commitId && s[1..n + 1] == p.predecessorIds && s[n + 1..] == x;
    assert t[0] == q.commitId && t[1..n + 1] == q.predecessorIds && t[n + 1..] == y;
  }

  lemma {:induction false} GroupsDecode(ps: seq<CommitPredecessors>, qs: seq<CommitPredecessors>)
    requires SameGroupSizes(ps, qs) && PredecessorFrames(ps) == PredecessorFrames(qs)
    ensures ps == qs
  {
    if ps == [] {
      assert qs == [];
    } else {
      GroupFirst(ps[0], PredecessorFrames(ps[1..]), qs[0], PredecessorFrames(qs[1..]));
      GroupsDecode(ps[1..], qs[1..]);
      assert ps == [ps[0]] + ps[1..] && qs == [qs[0]] + qs[1..];
    }
  }

  // ---------- The whole buffer ----------

  /** The metadata fields of fixed count, from the end time on. */
  function MiddleTokens(m: OperationMetadata): seq<Token> {
    [Word(m.endTimeMillis)] + DescriptionTokens(m)
  }

  function HeadTokens(o: Option<OperationMetadata>): seq<Token> {
    match o
    case None => []
    case Some(m) => [Word(m.startTimeMillis)] + MiddleTokens(m)
  }

  /** The frames at the end of the buffer, all of them alike: workspace name, attributes, predecessors. */
  function TailFrames(op: Operation): seq<Bytes> {
    (match op.metadata case None => [] case Some(m) => TrailingFrames(m)) + PredecessorFrames(op.commitPredecessors)
  }

  function AfterParents(op: Operation): Bytes {
    EncodeAll(HeadTokens(op.metadata)) + FrameAll(TailFrames(op))
  }

  lemma MetadataParts(m: OperationMetadata)
    ensures MetadataTokens(Some(m)) == HeadTokens(Some(m)) + TrailingTokens(m)
  {
    var start, end := [Word(m.startTimeMillis)], [Word(m.endTimeMillis)];
    assert TimeTokens(m) == start + end;
    TokenAssoc(end, DescriptionTokens(m), TrailingTokens(m));
    TokenAssoc(start, end, DescriptionTokens(m) + TrailingTokens(m));
    TokenAssoc(start, MiddleTokens(m), TrailingTokens(m));
  }

  lemma TailTokens(op: Operation)
    ensures MetadataTokens(op.metadata) + FlatMap(op.commitPredecessors, PredecessorTokens)
         == HeadTokens(op.metadata) + FlatMap(TailFrames(op), FrameToken)
  {
    var ps := PredecessorFrames(op.commitPredecessors);
    PredecessorsAreFrames(op.commitPredecessors);
    match op.metadata
    case None =>
      assert TailFrames(op) == ps;
    case Some(m) =>
      MetadataParts(m);
      TrailingIsFrames(m);
      FlatMapAppend(TrailingFrames(m), ps, FrameToken);
      TokenAssoc(HeadTokens(op.metadata), TrailingTokens(m), FlatMap(ps, FrameToken));
  }

  lemma OperationPreimageParts(op: Operation)
    ensures OperationPreimage(op) == Frame(op.viewId) + (FrameAll(op.parents) + AfterParents(op))
  {
    var head, tail := HeadTokens(op.metadata), FlatMap(TailFrames(op), FrameToken);
    var parents := FlatMap(op.parents, FrameToken);
    TailTokens(op);
    EncodeAllAppend(FrameToken(op.viewId), parents + (head + tail));
    EncodeAllAppend(parents, head + tail);
    EncodeAllAppend(head, tail);
    EncodeOne(Framed(op.viewId));
  }

  lemma OperationFits(op: Operation)
    requires AllFit(OperationTokens(op))
    ensures |op.viewId| < U64_LIMIT && AllShort(op.parents) && AllShort(TailFrames(op))
    ensures AllFit(FlatMap(op.parents, FrameToken)) && AllFit(HeadTokens(op.metadata))
  {
    var head, tail := HeadTokens(op.metadata), FlatMap(TailFrames(op), FrameToken);
    var parents := FlatMap(op.parents, FrameToken);
    TailTokens(op);
    FitsParts(FrameToken(op.viewId), parents + (head + tail));
    assert Fits(FrameToken(op.viewId)[0]);
    FitsParts(parents, head + tail);
    FitsParts(head, tail);
    FramesShort(op.parents);
    FramesShort(TailFrames(op));
  }

  lemma MiddleInjective(a: OperationMetadata, b: OperationMetadata)
    requires MiddleTokens(a) == MiddleTokens(b)
    ensures a.endTimeMillis == b.endTimeMillis && a.description == b.description
    ensures a.hostname == b.hostname && a.username == b.username && a.isSnapshot == b.isSnapshot
  {
    var s, t := MiddleTokens(a), MiddleTokens(b);
    assert s[0] == Word(a.endTimeMillis) && t[0] == Word(b.endTimeMillis);
    assert s[1..] == DescriptionTokens(a) && t[1..] == DescriptionTokens(b);
    var d, e := DescriptionTokens(a), DescriptionTokens(b);
    assert d[0] == e[0] && d[1] == e[1] && d[2] == e[2] && d[3] == e[3];
  }

  // ---------- Exactly what the buffer determines ----------

  /** The metadata without its trailing fields. */
  function MetadataHead(o: Option<OperationMetadata>): Option<OperationMetadata> {
    match o
    case None => None
    case Some(m) => Some(m.(workspaceName := None, attributes := map[]))
  }

  ghost predicate SameHead(a: Operation, b: Operation) {
    a.viewId == b.viewId && a.parents == b.parents && MetadataHead(a.metadata) == MetadataHead(b.metadata)
  }

  lemma HeadKinds(a: Option<OperationMetadata>, b: Option<OperationMetadata>)
    requires a.Some? == b.Some?
    ensures SameKinds(HeadTokens(a), HeadTokens(b))
  {
  }

  lemma HeadTokensDecode(a: Option<OperationMetadata>, b: Option<OperationMetadata>)
    requires a.Some? == b.Some?
    ensures HeadTokens(a) == HeadTokens(b) <==> MetadataHead(a) == MetadataHead(b)
  {
    if a.Some? && HeadTokens(a) == HeadTokens(b) {
      assert HeadTokens(a)[0] == HeadTokens(b)[0];
      assert HeadTokens(a)[1..] == MiddleTokens(a.value) && HeadTokens(b)[1..] == MiddleTokens(b.value);
      MiddleInjective(a.value, b.value);
    }
    if a.Some? && MetadataHead(a) == MetadataHead(b) {
      SameMetadataHead(a.value, b.value);
    }
  }

  lemma SameMetadataHead(m: OperationMetadata, n: OperationMetadata)
    requires MetadataHead(Some(m)) == MetadataHead(Some(n))
    ensures m.startTimeMillis == n.startTimeMillis && MiddleTokens(m) == MiddleTokens(n)
  {
    var h, k := MetadataHead(Some(m)).value, MetadataHead(Some(n)).value;
    assert h.startTimeMillis == m.startTimeMillis && k.startTimeMillis == n.startTimeMillis;
    assert MiddleTokens(m) == MiddleTokens(h) && MiddleTokens(n) == MiddleTokens(k);
  }

  lemma AfterParentsDecode(a: Operation, b: Operation)
    requires a.metadata.Some? == b.metadata.Some?
    requires AllFit(HeadTokens(a.metadata)) && AllFit(HeadTokens(b.metadata))
    requires AllShort(TailFrames(a)) && AllShort(TailFrames(b))
    ensures AfterParents(a) == AfterParents(b)
       <==> MetadataHead(a.metadata) == MetadataHead(b.metadata) && TailFrames(a) == TailFrames(b)
  {
    HeadTokensDecode(a.metadata, b.metadata);
    if AfterParents(a) == AfterParents(b) {
      HeadKinds(a.metadata, b.metadata);
      EncodeAllInjective(HeadTokens(a.metadata), FrameAll(TailFrames(a)), HeadTokens(b.metadata), FrameAll(TailFrames(b)));
      FrameAllInjective(TailFrames(a), TailFrames(b));
    }
  }

  /** The parents can be told from what follows: there are equally many, or no parent of one
      operation has the other's start time for its length. */
  predicate ParentsSeparable(a: Operation, b: Operation) {
    || |a.parents| == |b.parents|
    || (a.metadata.Some? && b.metadata.Some?
        && LengthsApart(a.parents, b.metadata.value.startTimeMillis)
        && LengthsApart(b.parents, a.metadata.value.startTimeMillis))
  }

  lemma {:induction false} FrameKinds(fs: seq<Bytes>, gs: seq<Bytes>)
    requires |fs| == |gs|
    ensures SameKinds(FlatMap(fs, FrameToken), FlatMap(gs, FrameToken))
  {
    if fs == [] {
      assert FlatMap(fs, FrameToken) == [] == FlatMap(gs, FrameToken);
    } else {
      FrameKinds(fs[1..], gs[1..]);
    }
  }

  /** After equally many parents, the rest follows at once. */
  lemma CountedParentsDecode(ps: seq<Bytes>, x: Bytes, qs: seq<Bytes>, y: Bytes)
    requires |ps| == |qs| && AllFit(FlatMap(ps, FrameToken)) && AllFit(FlatMap(qs, FrameToken))
    requires FrameAll(ps) + x == FrameAll(qs) + y
    ensures ps == qs && x == y
  {
    FrameKinds(ps, qs);
    EncodeAllInjective(FlatMap(ps, FrameToken), x, FlatMap(qs, FrameToken), y);
    FramesEqual(ps, qs);
  }

  function AfterStart(op: Operation): Bytes
    requires op.metadata.Some?
  {
    EncodeAll(MiddleTokens(op.metadata.value)) + FrameAll(TailFrames(op))
  }

  lemma StartFirst(op: Operation)
    requires op.metadata.Some?
    ensures AfterParents(op) == I64Le(op.metadata.value.startTimeMillis) + AfterStart(op)
  {
    var m := op.metadata.value;
    EncodeStep(Word(m.startTimeMillis), MiddleTokens(m));
    Assoc(I64Le(m.startTimeMillis), EncodeAll(MiddleTokens(m)), FrameAll(TailFrames(op)));
  }

  lemma SeparableParentsDecode(a: Operation, b: Operation)
    requires AllFit(OperationTokens(a)) && AllFit(OperationTokens(b)) && ParentsSeparable(a, b)
    requires FrameAll(a.parents) + AfterParents(a) == FrameAll(b.parents) + AfterParents(b)
    ensures a.parents == b.parents && AfterParents(a) == AfterParents(b)
  {
    OperationFits(a);
    OperationFits(b);
    if |a.parents| == |b.parents| {
      CountedParentsDecode(a.parents, AfterParents(a), b.parents, AfterParents(b));
    } else {
      var m, n := a.metadata.value, b.metadata.value;
      StartFirst(a);
      StartFirst(b);
      ParentsDecode(a.parents, m.startTimeMillis, AfterStart(a), b.parents, n.startTimeMillis, AfterStart(b));
    }
  }

  /** Exactly what the buffer determines, predecessors or not: every field up to the snapshot flag,
      and the list of frames that workspace name, attributes and predecessors flatten to. */
  lemma OperationBufferDetermines(a: Operation, b: Operation)
    requires a.metadata.Some? == b.metadata.Some? && ParentsSeparable(a, b)
    requires AllFit(OperationTokens(a)) && AllFit(OperationTokens(b))
    ensures OperationPreimage(a) == OperationPreimage(b) <==> SameHead(a, b) && TailFrames(a) == TailFrames(b)
  {
    OperationPreimageParts(a);
    OperationPreimageParts(b);
    OperationFits(a);
    OperationFits(b);
    if OperationPreimage(a) == OperationPreimage(b) {
      FramePrefixFree(a.viewId, FrameAll(a.parents) + AfterParents(a), b.viewId, FrameAll(b.parents) + AfterParents(b));
      SeparableParentsDecode(a, b);
    }
    AfterParentsDecode(a, b);
  }

  // ---------- Equal shapes: the counts that the buffer leaves out ----------

  predicate MetadataShape(a: Option<OperationMetadata>, b: Option<OperationMetadata>) {
    match (a, b)
    case (None, None) => true
    case (Some(m), Some(n)) => m.workspaceName.Some? == n.workspaceName.Some? && |m.attributes| == |n.attributes|
    case _ => false
  }

  predicate OperationShape(a: Operation, b: Operation) {
    && |a.parents| == |b.parents|
    && MetadataShape(a.metadata, b.metadata)
    && SameGroupSizes(a.commitPredecessors, b.commitPredecessors)
  }

  /** Equal but for commit_predecessors_set, which is not hashed. */
  predicate SameButSet(a: Operation, b: Operation) {
    a == b.(commitPredecessorsSet := a.commitPredecessorsSet)
  }

  lemma TailDecode(a: Operation, b: Operation)
    requires MetadataShape(a.metadata, b.metadata) && SameGroupSizes(a.commitPredecessors, b.commitPredecessors)
    requires TailFrames(a) == TailFrames(b) && MetadataHead(a.metadata) == MetadataHead(b.metadata)
    ensures a.metadata == b.metadata && a.commitPredecessors == b.commitPredecessors
  {
    var ps, qs := PredecessorFrames(a.commitPredecessors), PredecessorFrames(b.commitPredecessors);
    if a.metadata.Some? {
      var m, n := a.metadata.value, b.metadata.value;
      SplitFrames(TrailingFrames(m), ps, TrailingFrames(n), qs);
      TrailingFramesDecode(m, n);
      SameMetadata(m, n);
    } else {
      assert TailFrames(a) == ps && TailFrames(b) == qs;
    }
    GroupsDecode(a.commitPredecessors, b.commitPredecessors);
  }

  lemma SplitFrames(f: seq<Bytes>, x: seq<Bytes>, g: seq<Bytes>, y: seq<Bytes>)
    requires |f| == |g| && f + x == g + y
    ensures f == g && x == y
  {
    assert f == (f + x)[..|f|] && g == (g + y)[..|g|];
    assert x == (f + x)[|f|..] && y == (g + y)[|g|..];
  }

  lemma SameMetadata(m: OperationMetadata, n: OperationMetadata)
    requires MetadataHead(Some(m)) == MetadataHead(Some(n))
    requires m.workspaceName == n.workspaceName && m.attributes == n.attributes
    ensures m == n
  {
    var h, k := MetadataHead(Some(m)).value, MetadataHead(Some(n)).value;
    assert m == h.(workspaceName := m.workspaceName, attributes := m.attributes);
    assert n == k.(workspaceName := n.workspaceName, attributes := n.attributes);
  }

  /** For any two operations, predecessors, parents and start times of any kind: they are equal, up
      to the unhashed flag, exactly when they have one buffer and one shape. */
  lemma OperationPreimageCharacterised(a: Operation, b: Operation)
    requires AllFit(OperationTokens(a)) && AllFit(OperationTokens(b))
    ensures SameButSet(a, b) <==> OperationPreimage(a) == OperationPreimage(b) && OperationShape(a, b)
  {
    if OperationPreimage(a) == OperationPreimage(b) && OperationShape(a, b) {
      OperationBufferDetermines(a, b);
      TailDecode(a, b);
    }
  }

  // ---------- Without predecessors the shape is not needed ----------

  /** Operations with one buffer and separable parents agree up to the unhashed flag when they have
      metadata and no commit predecessors: the parity of the trailing frames tells the rest. */
  lemma OperationPreimageDecodes(a: Operation, b: Operation)
    requires a.metadata.Some? && b.metadata.Some? && ParentsSeparable(a, b)
    requires a.commitPredecessors == [] && b.commitPredecessors == []
    requires AllFit(OperationTokens(a)) && AllFit(OperationTokens(b))
    ensures OperationPreimage(a) == OperationPreimage(b) <==> SameButSet(a, b)
  {
    if OperationPreimage(a) == OperationPreimage(b) {
      var m, n := a.metadata.value, b.metadata.value;
      OperationBufferDetermines(a, b);
      assert TailFrames(a) == TrailingFrames(m) && TailFrames(b) == TrailingFrames(n);
      TrailingFramesDecode(m, n);
      SameMetadata(m, n);
    }
  }

  /** What jj clients send: metadata, parents of id length, and a start time that is not that
      length in milliseconds. */
  ghost predicate Readable(op: Operation) {
    && op.metadata.Some?
    && (forall p :: p in op.parents ==> |p| == OPERATION_ID_LENGTH)
    && op.metadata.value.startTimeMillis != OPERATION_ID_LENGTH
    && AllFit(OperationTokens(op))
  }

  lemma ReadableSeparable(a: Operation, b: Operation)
    requires Readable(a) && Readable(b)
    ensures ParentsSeparable(a, b)
  {
    assert AsWord(a.metadata.value.startTimeMillis) != OPERATION_ID_LENGTH;
    assert AsWord(b.metadata.value.startTimeMillis) != OPERATION_ID_LENGTH;
  }

  // ---------- Outside the domain the buffer is ambiguous ----------

  function Plain(viewId: Bytes, parents: seq<Bytes>, start: i64, end: i64, hostname: Bytes,
                 attributes: map<Bytes, Bytes>): Operation
  {
    Operation(viewId, parents,
              Some(OperationMetadata(start, end, [], hostname, [], false, None, attributes)), [], false)
  }

  lemma ZeroWord()
    ensures U64Le(0) == [0, 0, 0, 0, 0, 0, 0, 0]
  {
    U64LeExists(0);
    assert FromLittleEndian([0, 0]) == 0;
    assert [0, 0, 0, 0][2..] == [0, 0];
    assert FromLittleEndian([0, 0, 0, 0]) == 0;
    assert [0, 0, 0, 0, 0, 0][2..] == [0, 0, 0, 0];
    assert FromLittleEndian([0, 0, 0, 0, 0, 0]) == 0;
    assert [0, 0, 0, 0, 0, 0, 0, 0][2..] == [0, 0, 0, 0, 0, 0];
    assert FromLittleEndian([0, 0, 0, 0, 0, 0, 0, 0]) == 0;
  }

  /** At start time 16 a parent can be mistaken for metadata: the operation `b`, started at
      millisecond 16 without parents, has the buffer of `a`, which has one parent. */
  lemma StartTimeSixteenCollides(viewId: Bytes, e: i64, end: i64)
    ensures
      var a := Plain(viewId, [I64Le(e) + U64Le(0)], 8, end, [], map[]);
      var b := Plain(viewId, [], 16, e, I64Le(end), map[[] := []]);
      OperationPreimage(a) == OperationPreimage(b) && a.parents != b.parents
  {
    var p := I64Le(e) + U64Le(0);
    var a := Plain(viewId, [p], 8, end, [], map[]);
    var b := Plain(viewId, [], 16, e, I64Le(end), map[[] := []]);
    OperationPreimageParts(a);
    OperationPreimageParts(b);
    StartFirst(a);
    StartFirst(b);
    AfterStartOfA(a);
    AfterStartOfB(b);
    OneFrame(p);
    EncodeOne(Framed(p));
    ZeroWord();
    Realign(U64Le(16), I64Le(e), U64Le(0), I64Le(8), I64Le(end));
  }

  /** The same bytes, cut at two different sets of places. */
  lemma Realign(n16: Bytes, e: Bytes, z: Bytes, n8: Bytes, end: Bytes)
    requires z == [0, 0, 0, 0, 0, 0, 0, 0]
    ensures (n16 + (e + z)) + (n8 + (end + (z + (z + (z + [0])))))
         == [] + (n16 + ((e + (z + ((n8 + end) + (z + [0])))) + (z + z)))
  {
    var tail := z + (z + (z + [0]));
    assert tail == (z + [0]) + (z + z);
    assert (n16 + (e + z)) + (n8 + (end + tail)) == n16 + (e + (z + ((n8 + end) + tail)));
    Regroup(e, z, n8 + end, z + [0], z + z);
  }

  lemma Regroup(a: Bytes, b: Bytes, c: Bytes, d: Bytes, x: Bytes)
    ensures (a + (b + (c + d))) + x == a + (b + (c + (d + x)))
  {
    Assoc(c, d, x);
    Assoc(b, c + d, x);
    Assoc(a, b + (c + d), x);
  }

  lemma AfterStartOfA(op: Operation)
    requires op.metadata.Some? && op.commitPredecessors == []
    requires var m := op.metadata.value;
      m.description == m.hostname == m.username == [] && !m.isSnapshot
      && m.workspaceName == None && m.attributes == map[]
    ensures AfterStart(op)
         == I64Le(op.metadata.value.endTimeMillis) + (U64Le(0) + (U64Le(0) + (U64Le(0) + [0])))
  {
    MiddleBytes(op.metadata.value);
    assert TailFrames(op) == [] && FrameAll([]) == [];
    EmptyFrame();
    assert EncodeAll(MiddleTokens(op.metadata.value)) + [] == EncodeAll(MiddleTokens(op.metadata.value));
  }

  lemma AfterStartOfB(op: Operation)
    requires op.metadata.Some? && op.commitPredecessors == []
    requires var m := op.metadata.value;
      m.description == m.username == [] && |m.hostname| == 8 && !m.isSnapshot
      && m.workspaceName == None && m.attributes == map[[] := []]
    ensures var m := op.metadata.value;
      AfterStart(op)
      == (I64Le(m.endTimeMillis) + (U64Le(0) + ((U64Le(8) + m.hostname) + (U64Le(0) + [0])))) + (U64Le(0) + U64Le(0))
  {
    var m := op.metadata.value;
    var empty: Bytes := [];
    MiddleBytes(m);
    SortedEntriesSpec(m.attributes);
    assert SortedEntries(m.attributes) == [([], [])];
    assert TailFrames(op) == TrailingFrames(m) == [empty, empty];
    FrameAllCons([empty, empty]);
    FrameAllCons([empty]);
    assert [empty, empty][1..] == [empty] && [empty][1..] == [];
    EmptyFrame();
    assert FrameAll([empty, empty]) == U64Le(0) + U64Le(0);
  }

  lemma MiddleBytes(m: OperationMetadata)
    requires !m.isSnapshot
    ensures EncodeAll(MiddleTokens(m))
         == I64Le(m.endTimeMillis) + (Frame(m.description) + (Frame(m.hostname) + (Frame(m.username) + [0])))
  {
    var w, d, h, u, f := Word(m.endTimeMillis), Framed(m.description), Framed(m.hostname), Framed(m.username), Flag(false);
    assert MiddleTokens(m) == [w] + ([d] + ([h] + ([u] + [f])));
    EncodeStep(w, [d] + ([h] + ([u] + [f])));
    EncodeStep(d, [h] + ([u] + [f]));
    EncodeStep(h, [u] + [f]);
    EncodeStep(u, [f]);
    EncodeOne(f);
  }

  lemma EncodeStep(t: Token, rest: seq<Token>)
    ensures EncodeAll([t] + rest) == Encode(t) + EncodeAll(rest)
  {
    assert ([t] + rest)[1..] == rest;
  }

  lemma EmptyFrame()
    ensures Frame([]) == U64Le(0)
  {
  }

  /** Predecessor groups are flattened: one predecessor of `c` and a second group headed by it
      give one buffer; and commit_predecessors_set is not part of the buffer at all. */
  lemma PredecessorsCollide(op: Operation, c: Bytes, p: Bytes, isSet: bool)
    ensures
      var a := op.(commitPredecessors := [CommitPredecessors(c, [p])]);
      var b := op.(commitPredecessors := [CommitPredecessors(c, []), CommitPredecessors(p, [])],
                   commitPredecessorsSet := isSet);
      OperationPreimage(a) == OperationPreimage(b)
  {
    var g, g0, g1 := CommitPredecessors(c, [p]), CommitPredecessors(c, []), CommitPredecessors(p, []);
    OneFrame(p);
    assert PredecessorTokens(g) == [Framed(c), Framed(p)];
    assert PredecessorTokens(g0) == [Framed(c)] && PredecessorTokens(g1) == [Framed(p)];
    assert [g0, g1][1..] == [g1] && [g1][1..] == [] && [g][1..] == [];
    assert FlatMap([g1], PredecessorTokens) == [Framed(p)];
    assert FlatMap([g], PredecessorTokens) == FlatMap([g0, g1], PredecessorTokens);
  }
}
