/** Conversions between jj operations and their messages. */
module ClientOperations {
  import opened ByteStrings
  import opened Wrappers
  import opened Sorting
  import opened OpStoreProto
  import opened HashUtils
  import opened JjTypes
  import opened ClientOpStore

  function PredecessorsToProto(es: seq<(Bytes, seq<Bytes>)>): (ps: seq<CommitPredecessors>)
    ensures |ps| == |es|
  {
    seq(|es|, i requires 0 <= i < |es| => CommitPredecessors(es[i].0, es[i].1))
  }

  function OperationToProto(op: JjOperation): Operation {
    var m := op.metadata;
    Operation(
      op.viewId,
      op.parents,
      Some(OperationMetadata(m.start.millis, m.end.millis, m.description, m.hostname, m.username,
                             m.isSnapshot, m.workspaceName, m.attributes)),
      match op.commitPredecessors {
        case Some(preds) => PredecessorsToProto(SortedEntries(preds))
        case None => []
      },
      op.commitPredecessors.Some?)
  }

  const DEFAULT_METADATA: OperationMetadata := OperationMetadata(0, 0, [], [], [], false, None, map[])

  function MetadataFromProto(m: OperationMetadata): JjMetadata {
    JjMetadata(JjTimestamp(m.startTimeMillis, 0), JjTimestamp(m.endTimeMillis, 0), m.description, m.hostname,
               m.username, m.isSnapshot, m.workspaceName, m.attributes)
  }

  function PredecessorEntries(ps: seq<CommitPredecessors>): (es: seq<(Bytes, seq<Bytes>)>)
    ensures |es| == |ps|
  {
    seq(|ps|, i requires 0 <= i < |ps| => (ps[i].commitId, ps[i].predecessorIds))
  }

  function OperationFromProto(p: Operation): JjOperation {
    JjOperation(
      p.viewId,
      p.parents,
      MetadataFromProto(match p.metadata { case Some(m) => m case None => DEFAULT_METADATA }),
      if p.commitPredecessorsSet then Some(InsertAll(map[], PredecessorEntries(p.commitPredecessors))) else None)
  }

  /** `operation_from_proto`: the predecessor groups are inserted one by one. */
  method ReadOperationProto(p: Operation) returns (op: JjOperation)
    ensures op == OperationFromProto(p)
  {
    var meta := if p.metadata.Some? then p.metadata.value else DEFAULT_METADATA;
    var predecessors: Option<map<Bytes, seq<Bytes>>> := None;
    if p.commitPredecessorsSet {
      var m: map<Bytes, seq<Bytes>> := map[];
      ghost var es := PredecessorEntries(p.commitPredecessors);
      for i := 0 to |p.commitPredecessors|
        invariant m == InsertAll(map[], es[..i])
      {
        InsertAllAppend(map[], es[..i], es[i]);
        assert es[..i + 1] == es[..i] + [es[i]];
        m := m[p.commitPredecessors[i].commitId := p.commitPredecessors[i].predecessorIds];
      }
      assert es[..|es|] == es;
      predecessors := Some(m);
    }
    op := JjOperation(p.viewId, p.parents, MetadataFromProto(meta), predecessors);
  }

  /** What the messages cannot carry: the time-zone offsets. */
  function WithoutTimeZones(op: JjOperation): JjOperation {
    var m := op.metadata;
    op.(metadata := m.(start := JjTimestamp(m.start.millis, 0), end := JjTimestamp(m.end.millis, 0)))
  }

  // ---------- What the two conversions say, field by field ----------

  /** The groups are the entries of the map, one each, ascending by commit id. */
  ghost predicate SortedGroups(ps: seq<CommitPredecessors>, preds: map<Bytes, seq<Bytes>>) {
    && |ps| == |preds|
    && (forall i :: 0 <= i < |ps| ==> ps[i].commitId in preds && preds[ps[i].commitId] == ps[i].predecessorIds)
    && (forall i, j :: 0 <= i < j < |ps| ==> ps[i].commitId != ps[j].commitId && LexLe(ps[i].commitId, ps[j].commitId))
  }

  lemma OperationToProtoExactly(op: JjOperation)
    ensures var p, m := OperationToProto(op), op.metadata;
      && p.viewId == op.viewId && p.parents == op.parents
      && p.metadata == Some(OperationMetadata(m.start.millis, m.end.millis, m.description, m.hostname, m.username,
                                              m.isSnapshot, m.workspaceName, m.attributes))
      && (p.commitPredecessorsSet <==> op.commitPredecessors.Some?)
      && (if op.commitPredecessors.Some? then SortedGroups(p.commitPredecessors, op.commitPredecessors.value)
          else p.commitPredecessors == [])
  {
    if op.commitPredecessors.Some? { SortedEntriesSpec(op.commitPredecessors.value); }
  }

  /** Of the groups with one commit id the last counts. */
  ghost predicate LastGroup(ps: seq<CommitPredecessors>, i: nat) {
    i < |ps| && forall j :: i < j < |ps| ==> ps[j].commitId != ps[i].commitId
  }

  /** The operation made of any message: its own fields, times in UTC, and per commit id the last
      group; a missing metadata message reads as the empty one. */
  lemma OperationFromProtoExactly(p: Operation, i: nat, k: Bytes)
    ensures var op := OperationFromProto(p);
      var m := if p.metadata.Some? then p.metadata.value else OperationMetadata(0, 0, [], [], [], false, None, map[]);
      && op.viewId == p.viewId && op.parents == p.parents
      && op.metadata == JjMetadata(JjTimestamp(m.startTimeMillis, 0), JjTimestamp(m.endTimeMillis, 0), m.description,
                                   m.hostname, m.username, m.isSnapshot, m.workspaceName, m.attributes)
      && (op.commitPredecessors.Some? <==> p.commitPredecessorsSet)
      && (op.commitPredecessors.Some? ==>
            var preds, ps := op.commitPredecessors.value, p.commitPredecessors;
            && (k in preds ==> exists j :: 0 <= j < |ps| && ps[j].commitId == k)
            && (LastGroup(ps, i) ==> ps[i].commitId in preds && preds[ps[i].commitId] == ps[i].predecessorIds))
  {
    var es := PredecessorEntries(p.commitPredecessors);
    var none: map<Bytes, seq<Bytes>> := map[];
    InsertAllSpec(none, es, k);
    if LastGroup(p.commitPredecessors, i) { InsertAllLast(none, es, i); }
  }

  // ---------- Round trip ----------

  lemma InsertSortedEntries<V>(m: map<Bytes, V>)
    ensures InsertAll(map[], SortedEntries(m)) == m
  {
    var es := SortedEntries(m);
    var none: map<Bytes, V> := map[];
    var n := InsertAll(none, es);
    SortedEntriesSpec(m);
    forall k ensures k in n <==> k in m {
      InsertAllSpec(none, es, k);
      if k in m { var i := SortedEntryAt(m, k); }
    }
    forall k | k in n ensures n[k] == m[k] {
      InsertAllSpec(none, es, k);
      var i :| 0 <= i < |es| && es[i] == (k, n[k]);
    }
  }

  /** An operation survives being written and read back except for its time-zone offsets; absent
      and empty predecessor maps stay apart. */
  lemma OperationRoundTrip(op: JjOperation)
    ensures OperationFromProto(OperationToProto(op)) == WithoutTimeZones(op)
  {
    if op.commitPredecessors.Some? {
      var preds := op.commitPredecessors.value;
      assert PredecessorEntries(PredecessorsToProto(SortedEntries(preds))) == SortedEntries(preds);
      InsertSortedEntries(preds);
    }
  }

  /** The operation itself comes back exactly when it was recorded in UTC. */
  lemma OperationRoundTripExact(op: JjOperation)
    ensures OperationFromProto(OperationToProto(op)) == op
       <==> op.metadata.start.tzOffset == 0 && op.metadata.end.tzOffset == 0
  {
    OperationRoundTrip(op);
    assert WithoutTimeZones(op) == op <==>
      WithoutTimeZones(op).metadata.start == op.metadata.start && WithoutTimeZones(op).metadata.end == op.metadata.end;
  }

  /** Writing back an operation just read gives the message, and so the id, of the first write. */
  lemma OperationIdStable(blob: BlobHash, op: JjOperation)
    ensures OperationToProto(OperationFromProto(OperationToProto(op))) == OperationToProto(op)
    ensures OperationId(blob, OperationToProto(OperationFromProto(OperationToProto(op))))
         == OperationId(blob, OperationToProto(op))
  {
    OperationRoundTrip(op);
  }
}
