/** The two buffers written out byte by byte: which fields follow which, in what order and with what
    prefix, with no reference to the tokens they are built from. */
module BufferLayout {
  import opened ByteStrings
  import opened Wrappers
  import opened Sorting
  import opened Frames
  import opened OpStoreProto
  import opened HashUtils
  import OperationHash
  import ViewHash

  function Concat(pieces: seq<Bytes>): Bytes {
    if pieces == [] then [] else pieces[0] + Concat(pieces[1..])
  }

  lemma {:induction false} EncodedItems<T>(xs: seq<T>, f: T -> seq<Token>, pieces: seq<Bytes>)
    requires |xs| == |pieces| && forall i :: 0 <= i < |xs| ==> EncodeAll(f(xs[i])) == pieces[i]
    ensures EncodeAll(FlatMap(xs, f)) == Concat(pieces)
  {
    if xs == [] {
    } else {
      EncodeAllAppend(f(xs[0]), FlatMap(xs[1..], f));
      EncodedItems(xs[1..], f, pieces[1..]);
    }
  }

  // ---------- Operations ----------

  lemma EncodeFive(a: Token, b: Token, c: Token, d: Token, e: Token)
    ensures EncodeAll([a, b, c, d, e]) == Encode(a) + (Encode(b) + (Encode(c) + (Encode(d) + Encode(e))))
  {
    assert [a, b, c, d, e] == [a] + ([b] + ([c] + ([d] + [e])));
    OperationHash.EncodeStep(a, [b] + ([c] + ([d] + [e])));
    OperationHash.EncodeStep(b, [c] + ([d] + [e]));
    OperationHash.EncodeStep(c, [d] + [e]);
    OperationHash.EncodeStep(d, [e]);
    EncodeOne(e);
  }

  /** Two times of eight bytes, three prefixed texts, one byte for the snapshot flag. */
  lemma MetadataLayout(m: OperationMetadata)
    ensures EncodeAll(OperationHash.HeadTokens(Some(m)))
         == I64Le(m.startTimeMillis) + (I64Le(m.endTimeMillis) + (Frame(m.description) + (Frame(m.hostname)
            + (Frame(m.username) + (if m.isSnapshot then [1] else [0])))))
  {
    var w, d, n, u, f :=
      Word(m.endTimeMillis), Framed(m.description), Framed(m.hostname), Framed(m.username), Flag(m.isSnapshot);
    assert OperationHash.MiddleTokens(m) == [w, d, n, u, f];
    EncodeFive(w, d, n, u, f);
    OperationHash.EncodeStep(Word(m.startTimeMillis), OperationHash.MiddleTokens(m));
  }

  /** View id, parents, the metadata of fixed count if there is any, and at the end nothing but frames. */
  lemma OperationLayout(op: Operation)
    ensures OperationPreimage(op)
         == Frame(op.viewId)
            + (FrameAll(op.parents)
               + ((match op.metadata
                   case None => []
                   case Some(m) =>
                     I64Le(m.startTimeMillis) + (I64Le(m.endTimeMillis) + (Frame(m.description) + (Frame(m.hostname)
                     + (Frame(m.username) + (if m.isSnapshot then [1] else [0]))))))
                  + FrameAll(OperationHash.TailFrames(op))))
  {
    OperationHash.OperationPreimageParts(op);
    match op.metadata
    case None =>
    case Some(m) => MetadataLayout(m);
  }

  /** The frames at the end: the workspace name if any, then each attribute's key and value... */
  lemma TailLayout(op: Operation, i: nat)
    requires op.metadata.Some? && i < |op.metadata.value.attributes|
    ensures var m := op.metadata.value;
      var frames, from := OperationHash.TailFrames(op), if m.workspaceName.Some? then 1 else 0;
      && from + 2 * |m.attributes| <= |frames|
      && (m.workspaceName.Some? ==> frames[0] == m.workspaceName.value)
      && frames[from + 2 * i] == SortedEntries(m.attributes)[i].0
      && frames[from + 2 * i + 1] == SortedEntries(m.attributes)[i].1
      && frames[from + 2 * |m.attributes|..] == OperationHash.PredecessorFrames(op.commitPredecessors)
  {
    var m := op.metadata.value;
    var es := SortedEntries(m.attributes);
    FlattenAt(es, i);
    var t, ps := OperationHash.TrailingFrames(m), OperationHash.PredecessorFrames(op.commitPredecessors);
    assert OperationHash.TailFrames(op) == t + ps;
    assert |t| == |WorkspaceFrames(m)| + 2 * |es|;
  }

  lemma {:induction false} FlattenAt(es: seq<(Bytes, Bytes)>, i: nat)
    requires i < |es|
    ensures OperationHash.Flatten(es)[2 * i] == es[i].0 && OperationHash.Flatten(es)[2 * i + 1] == es[i].1
  {
    if i == 0 {
    } else {
      FlattenAt(es[1..], i - 1);
      assert OperationHash.Flatten(es)[2..] == OperationHash.Flatten(es[1..]);
    }
  }

  /** ...and then, group by group, a commit id followed by its predecessors. */
  lemma {:induction false} PredecessorLayout(ps: seq<CommitPredecessors>, p: CommitPredecessors)
    ensures OperationHash.PredecessorFrames([]) == []
    ensures OperationHash.PredecessorFrames(ps + [p])
         == OperationHash.PredecessorFrames(ps) + ([p.commitId] + p.predecessorIds)
  {
    if ps == [] {
      assert [p][1..] == [];
      assert ps + [p] == [p];
    } else {
      PredecessorLayout(ps[1..], p);
      assert (ps + [p])[0] == ps[0] && (ps + [p])[1..] == ps[1..] + [p];
    }
  }

  // ---------- Views ----------

  function PairPieces(es: seq<(Bytes, Bytes)>): (ps: seq<Bytes>)
    ensures |ps| == |es|
  {
    seq(|es|, i requires 0 <= i < |es| => Frame(es[i].0) + Frame(es[i].1))
  }

  /** Removes come before adds, each sorted, with nothing between them. */
  function TargetBytes(t: RefTarget): Bytes {
    FrameAll(SortBytes(t.removes)) + FrameAll(SortBytes(t.adds))
  }

  function LocalPieces(es: seq<(Bytes, RefTarget)>): (ps: seq<Bytes>)
    ensures |ps| == |es|
  {
    seq(|es|, i requires 0 <= i < |es| => Frame(es[i].0) + TargetBytes(es[i].1))
  }

  function RemotePieces(es: seq<(Bytes, RemoteRef)>): (ps: seq<Bytes>)
    ensures |ps| == |es|
  {
    seq(|es|, i requires 0 <= i < |es| =>
      Frame(es[i].0) + ((if es[i].1.isTracked then [1] else [0])
                        + (match es[i].1.target case None => [] case Some(t) => TargetBytes(t))))
  }

  lemma PairLayout(e: (Bytes, Bytes))
    ensures EncodeAll(PairTokens(e)) == Frame(e.0) + Frame(e.1)
  {
    assert PairTokens(e) == [Framed(e.0)] + [Framed(e.1)];
    OperationHash.EncodeStep(Framed(e.0), [Framed(e.1)]);
    EncodeOne(Framed(e.1));
  }

  lemma TargetLayout(t: RefTarget)
    ensures EncodeAll(RefTargetTokens(t)) == TargetBytes(t)
  {
    EncodeAllAppend(FlatMap(SortBytes(t.removes), FrameToken), FlatMap(SortBytes(t.adds), FrameToken));
  }

  lemma LocalLayout(e: (Bytes, RefTarget))
    ensures EncodeAll(BookmarkTokens(e)) == Frame(e.0) + TargetBytes(e.1)
  {
    OperationHash.EncodeStep(Framed(e.0), RefTargetTokens(e.1));
    TargetLayout(e.1);
  }

  lemma RemoteLayout(e: (Bytes, RemoteRef))
    ensures EncodeAll(RemoteTokens(e))
         == Frame(e.0) + ((if e.1.isTracked then [1] else [0])
                          + (match e.1.target case None => [] case Some(t) => TargetBytes(t)))
  {
    var target := OptionalTargetTokens(e.1.target);
    assert RemoteTokens(e) == [Framed(e.0)] + ([Flag(e.1.isTracked)] + target);
    OperationHash.EncodeStep(Framed(e.0), [Flag(e.1.isTracked)] + target);
    OperationHash.EncodeStep(Flag(e.1.isTracked), target);
    if e.1.target.Some? { TargetLayout(e.1.target.value); }
  }

  /** Sorted heads, then working copies, local bookmarks and remote bookmarks, each in key order. */
  lemma ViewLayout(v: View)
    ensures ViewPreimage(v)
         == FrameAll(SortBytes(v.headIds))
            + (Concat(PairPieces(SortedEntries(v.wcCommitIds)))
               + (Concat(LocalPieces(SortedEntries(v.localBookmarks)))
                  + Concat(RemotePieces(SortedEntries(v.remoteBookmarks)))))
  {
    ViewHash.ViewPreimageParts(v);
    PairsEncoded(SortedEntries(v.wcCommitIds));
    LocalsEncoded(SortedEntries(v.localBookmarks));
    RemotesEncoded(SortedEntries(v.remoteBookmarks));
    assert EncodeAll(RemotesTokens(v)) + [] == EncodeAll(RemotesTokens(v));
  }

  lemma PairsEncoded(es: seq<(Bytes, Bytes)>)
    ensures EncodeAll(FlatMap(es, PairTokens)) == Concat(PairPieces(es))
  {
    forall i | 0 <= i < |es| ensures EncodeAll(PairTokens(es[i])) == PairPieces(es)[i] { PairLayout(es[i]); }
    EncodedItems(es, PairTokens, PairPieces(es));
  }

  lemma LocalsEncoded(es: seq<(Bytes, RefTarget)>)
    ensures EncodeAll(FlatMap(es, BookmarkTokens)) == Concat(LocalPieces(es))
  {
    forall i | 0 <= i < |es| ensures EncodeAll(BookmarkTokens(es[i])) == LocalPieces(es)[i] { LocalLayout(es[i]); }
    EncodedItems(es, BookmarkTokens, LocalPieces(es));
  }

  lemma RemotesEncoded(es: seq<(Bytes, RemoteRef)>)
    ensures EncodeAll(FlatMap(es, RemoteTokens)) == Concat(RemotePieces(es))
  {
    forall i | 0 <= i < |es| ensures EncodeAll(RemoteTokens(es[i])) == RemotePieces(es)[i] { RemoteLayout(es[i]); }
    EncodedItems(es, RemoteTokens, RemotePieces(es));
  }
}
