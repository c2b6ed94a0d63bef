/** hash_view and hash_operation: the buffers they build, and the ids cut from the buffers' digests. */
module HashUtils {
  import opened ByteStrings
  import opened Wrappers
  import opened Sorting
  import opened Frames
  import opened OpStoreProto

  // ---------- What is hashed, as tokens ----------

  function RefTargetTokens(t: RefTarget): seq<Token> {
    FlatMap(SortBytes(t.removes), FrameToken) + FlatMap(SortBytes(t.adds), FrameToken)
  }

  function PairTokens(e: (Bytes, Bytes)): seq<Token> {
    [Framed(e.0), Framed(e.1)]
  }

  function BookmarkTokens(e: (Bytes, RefTarget)): seq<Token> {
    [Framed(e.0)] + RefTargetTokens(e.1)
  }

  function OptionalTargetTokens(t: Option<RefTarget>): seq<Token> {
    match t
    case None => []
    case Some(target) => RefTargetTokens(target)
  }

  function RemoteTokens(e: (Bytes, RemoteRef)): seq<Token> {
    [Framed(e.0), Flag(e.1.isTracked)] + OptionalTargetTokens(e.1.target)
  }

  function HeadTokens(v: View): seq<Token> {
    FlatMap(SortBytes(v.headIds), FrameToken)
  }

  function WcTokens(v: View): seq<Token> {
    FlatMap(SortedEntries(v.wcCommitIds), PairTokens)
  }

  function LocalTokens(v: View): seq<Token> {
    FlatMap(SortedEntries(v.localBookmarks), BookmarkTokens)
  }

  function RemotesTokens(v: View): seq<Token> {
    FlatMap(SortedEntries(v.remoteBookmarks), RemoteTokens)
  }

  function ViewTokens(v: View): seq<Token> {
    HeadTokens(v) + (WcTokens(v) + (LocalTokens(v) + RemotesTokens(v)))
  }

  function WorkspaceFrames(m: OperationMetadata): seq<Bytes> {
    match m.workspaceName
    case None => []
    case Some(ws) => [ws]
  }

  function TimeTokens(m: OperationMetadata): seq<Token> {
    [Word(m.startTimeMillis), Word(m.endTimeMillis)]
  }

  function DescriptionTokens(m: OperationMetadata): seq<Token> {
    [Framed(m.description), Framed(m.hostname), Framed(m.username), Flag(m.isSnapshot)]
  }

  function TrailingTokens(m: OperationMetadata): seq<Token> {
    FlatMap(WorkspaceFrames(m), FrameToken) + FlatMap(SortedEntries(m.attributes), PairTokens)
  }

  function MetadataTokens(m: Option<OperationMetadata>): seq<Token> {
    match m
    case None => []
    case Some(meta) => TimeTokens(meta) + (DescriptionTokens(meta) + TrailingTokens(meta))
  }

  function PredecessorTokens(p: CommitPredecessors): seq<Token> {
    [Framed(p.commitId)] + FlatMap(p.predecessorIds, FrameToken)
  }

  function OperationTokens(op: Operation): seq<Token> {
    FrameToken(op.viewId)
    + (FlatMap(op.parents, FrameToken)
       + (MetadataTokens(op.metadata) + FlatMap(op.commitPredecessors, PredecessorTokens)))
  }

  /** The byte buffer that hash_view feeds to SHA-1. */
  function ViewPreimage(v: View): Bytes {
    EncodeAll(ViewTokens(v))
  }

  /** The byte buffer that hash_operation feeds to SHA-1. */
  function OperationPreimage(op: Operation): Bytes {
    EncodeAll(OperationTokens(op))
  }

  // ---------- Building the buffers ----------

  lemma EncodeTwo(buf: Bytes, s: seq<Token>, t: seq<Token>)
    ensures buf + EncodeAll(s) + EncodeAll(t) == buf + EncodeAll(s + t)
  {
    EncodeAllAppend(s, t);
    Assoc(buf, EncodeAll(s), EncodeAll(t));
  }

  method AppendWord(buf: Bytes, x: i64) returns (r: Bytes)
    ensures r == buf + EncodeAll([Word(x)])
  {
    r := buf + I64Le(x);
    assert EncodeAll([Word(x)]) == I64Le(x) + EncodeAll([]);
  }

  method AppendFlag(buf: Bytes, b: bool) returns (r: Bytes)
    ensures r == buf + EncodeAll([Flag(b)])
  {
    r := buf + (if b then [1] else [0]);
    assert EncodeAll([Flag(b)]) == Encode(Flag(b)) + EncodeAll([]);
  }

  method AppendPairs(buf: Bytes, es: seq<(Bytes, Bytes)>) returns (r: Bytes)
    ensures r == buf + EncodeAll(FlatMap(es, PairTokens))
  {
    r := buf;
    AppendNothing(buf, es, PairTokens);
    for i := 0 to |es|
      invariant r == buf + EncodeAll(FlatMap(es[..i], PairTokens))
    {
      ghost var before := r;
      r := AppendLengthPrefixedBytes(r, es[i].0);
      r := AppendLengthPrefixedBytes(r, es[i].1);
      EncodeTwo(before, [Framed(es[i].0)], [Framed(es[i].1)]);
      AppendItem(buf, es, i, PairTokens);
    }
    assert es[..|es|] == es;
  }

  method AppendRefTarget(buf: Bytes, t: RefTarget) returns (r: Bytes)
    ensures r == buf + EncodeAll(RefTargetTokens(t))
  {
    var removes := SortBytes(t.removes);
    r := AppendFrames(buf, removes);
    var adds := SortBytes(t.adds);
    r := AppendFrames(r, adds);
    EncodeTwo(buf, FlatMap(removes, FrameToken), FlatMap(adds, FrameToken));
  }

  method AppendBookmarks(buf: Bytes, es: seq<(Bytes, RefTarget)>) returns (r: Bytes)
    ensures r == buf + EncodeAll(FlatMap(es, BookmarkTokens))
  {
    r := buf;
    AppendNothing(buf, es, BookmarkTokens);
    for i := 0 to |es|
      invariant r == buf + EncodeAll(FlatMap(es[..i], BookmarkTokens))
    {
      ghost var before := r;
      r := AppendLengthPrefixedBytes(r, es[i].0);
      r := AppendRefTarget(r, es[i].1);
      EncodeTwo(before, [Framed(es[i].0)], RefTargetTokens(es[i].1));
      AppendItem(buf, es, i, BookmarkTokens);
    }
    assert es[..|es|] == es;
  }

  method AppendRemote(buf: Bytes, e: (Bytes, RemoteRef)) returns (r: Bytes)
    ensures r == buf + EncodeAll(RemoteTokens(e))
  {
    r := AppendLengthPrefixedBytes(buf, e.0);
    r := AppendFlag(r, e.1.isTracked);
    EncodeTwo(buf, [Framed(e.0)], [Flag(e.1.isTracked)]);
    ghost var head := [Framed(e.0), Flag(e.1.isTracked)];
    EncodeTwo(buf, head, OptionalTargetTokens(e.1.target));
    if e.1.target.Some? {
      r := AppendRefTarget(r, e.1.target.value);
    }
  }

  method AppendRemotes(buf: Bytes, es: seq<(Bytes, RemoteRef)>) returns (r: Bytes)
    ensures r == buf + EncodeAll(FlatMap(es, RemoteTokens))
  {
    r := buf;
    AppendNothing(buf, es, RemoteTokens);
    for i := 0 to |es|
      invariant r == buf + EncodeAll(FlatMap(es[..i], RemoteTokens))
    {
      r := AppendRemote(r, es[i]);
      AppendItem(buf, es, i, RemoteTokens);
    }
    assert es[..|es|] == es;
  }

  method ViewBuffer(v: View) returns (buf: Bytes)
    ensures buf == ViewPreimage(v)
  {
    var headIds := SortBytes(v.headIds);
    buf := AppendFrames([], headIds);
    var sortedWc := CollectSorted(v.wcCommitIds);
    buf := AppendPairs(buf, sortedWc);
    var sortedBookmarks := CollectSorted(v.localBookmarks);
    buf := AppendBookmarks(buf, sortedBookmarks);
    var sortedRemotes := CollectSorted(v.remoteBookmarks);
    buf := AppendRemotes(buf, sortedRemotes);
    FourParts(HeadTokens(v), WcTokens(v), LocalTokens(v), RemotesTokens(v));
  }

  lemma FourParts(a: seq<Token>, b: seq<Token>, c: seq<Token>, d: seq<Token>)
    ensures [] + EncodeAll(a) + EncodeAll(b) + EncodeAll(c) + EncodeAll(d) == EncodeAll(a + (b + (c + d)))
  {
    var buf := [] + EncodeAll(a);
    AppendThree(buf, b, c, d);
    EncodeTwo([], a, b + (c + d));
    assert [] + EncodeAll(a + (b + (c + d))) == EncodeAll(a + (b + (c + d)));
  }

  lemma AppendThree(buf: Bytes, b: seq<Token>, c: seq<Token>, d: seq<Token>)
    ensures buf + EncodeAll(b) + EncodeAll(c) + EncodeAll(d) == buf + EncodeAll(b + (c + d))
  {
    var next := buf + EncodeAll(b);
    EncodeTwo(next, c, d);
    EncodeTwo(buf, b, c + d);
  }

  method AppendMetadata(buf: Bytes, m: OperationMetadata) returns (r: Bytes)
    ensures r == buf + EncodeAll(MetadataTokens(Some(m)))
  {
    r := AppendWord(buf, m.startTimeMillis);
    r := AppendWord(r, m.endTimeMillis);
    EncodeTwo(buf, [Word(m.startTimeMillis)], [Word(m.endTimeMillis)]);
    ghost var afterTimes := r;
    r := AppendDescription(r, m);
    ghost var afterDescription := r;
    if m.workspaceName.Some? {
      r := AppendLengthPrefixedBytes(r, m.workspaceName.value);
      assert FlatMap(WorkspaceFrames(m), FrameToken) == [Framed(m.workspaceName.value)] + [];
    }
    assert r == afterDescription + EncodeAll(FlatMap(WorkspaceFrames(m), FrameToken));
    var sortedAttrs := CollectSorted(m.attributes);
    r := AppendPairs(r, sortedAttrs);
    EncodeTwo(afterDescription, FlatMap(WorkspaceFrames(m), FrameToken), FlatMap(sortedAttrs, PairTokens));
    EncodeTwo(afterTimes, DescriptionTokens(m), TrailingTokens(m));
    EncodeTwo(buf, TimeTokens(m), DescriptionTokens(m) + TrailingTokens(m));
  }

  method AppendDescription(buf: Bytes, m: OperationMetadata) returns (r: Bytes)
    ensures r == buf + EncodeAll(DescriptionTokens(m))
  {
    var d, h, u, s := Framed(m.description), Framed(m.hostname), Framed(m.username), Flag(m.isSnapshot);
    r := AppendLengthPrefixedBytes(buf, m.description);
    r := AppendLengthPrefixedBytes(r, m.hostname);
    EncodeTwo(buf, [d], [h]);
    r := AppendLengthPrefixedBytes(r, m.username);
    EncodeTwo(buf, [d, h], [u]);
    r := AppendFlag(r, m.isSnapshot);
    EncodeTwo(buf, [d, h, u], [s]);
    assert [d, h, u] + [s] == DescriptionTokens(m) && [d, h] + [u] == [d, h, u] && [d] + [h] == [d, h];
  }

  method AppendPredecessors(buf: Bytes, ps: seq<CommitPredecessors>) returns (r: Bytes)
    ensures r == buf + EncodeAll(FlatMap(ps, PredecessorTokens))
  {
    r := buf;
    AppendNothing(buf, ps, PredecessorTokens);
    for i := 0 to |ps|
      invariant r == buf + EncodeAll(FlatMap(ps[..i], PredecessorTokens))
    {
      ghost var before := r;
      r := AppendLengthPrefixedBytes(r, ps[i].commitId);
      r := AppendFrames(r, ps[i].predecessorIds);
      EncodeTwo(before, [Framed(ps[i].commitId)], FlatMap(ps[i].predecessorIds, FrameToken));
      AppendItem(buf, ps, i, PredecessorTokens);
    }
    assert ps[..|ps|] == ps;
  }

  method OperationBuffer(op: Operation) returns (buf: Bytes)
    ensures buf == OperationPreimage(op)
  {
    buf := AppendLengthPrefixedBytes([], op.viewId);
    buf := AppendFrames(buf, op.parents);
    ghost var before := buf;
    if op.metadata.Some? {
      buf := AppendMetadata(buf, op.metadata.value);
    }
    assert buf == before + EncodeAll(MetadataTokens(op.metadata));
    buf := AppendPredecessors(buf, op.commitPredecessors);
    FourParts(FrameToken(op.viewId), FlatMap(op.parents, FrameToken), MetadataTokens(op.metadata),
              FlatMap(op.commitPredecessors, PredecessorTokens));
  }

  // ---------- Ids ----------

  /** The 20 bytes of a SHA-1 digest; SHA-1 itself stays uninterpreted. */
  type Digest = d: Bytes | |d| == 20 witness seq(20, _ => 0)
  type BlobHash = Bytes -> Digest

  /** A view's id is the first 16 bytes of the digest of its buffer. */
  function ViewId(blob: BlobHash, v: View): (id: Bytes)
    ensures |id| == 16 && id <= blob(ViewPreimage(v))
  {
    blob(ViewPreimage(v))[..VIEW_ID_LENGTH]
  }

  /** An operation's id is the first 16 bytes of the digest of its buffer. */
  function OperationId(blob: BlobHash, op: Operation): (id: Bytes)
    ensures |id| == 16 && id <= blob(OperationPreimage(op))
  {
    blob(OperationPreimage(op))[..OPERATION_ID_LENGTH]
  }

  method HashView(blob: BlobHash, v: View) returns (id: Bytes)
    ensures id == ViewId(blob, v) == blob(ViewPreimage(v))[..16]
  {
    var buf := ViewBuffer(v);
    id := blob(buf)[..VIEW_ID_LENGTH];
  }

  method HashOperation(blob: BlobHash, op: Operation) returns (id: Bytes)
    ensures id == OperationId(blob, op) == blob(OperationPreimage(op))[..16]
  {
    var buf := OperationBuffer(op);
    id := blob(buf)[..OPERATION_ID_LENGTH];
  }
}
