/** The op_store messages (common/proto/op_store.proto). Byte and string fields are Bytes;
    the one-field wrapper RefTargetTerm is dropped. */
module OpStoreProto {
  import opened ByteStrings
  import opened Wrappers

  const OPERATION_ID_LENGTH: nat := 16
  const VIEW_ID_LENGTH: nat := 16
  const ROOT_COMMIT_ID: Bytes := [0, 0, 0, 0, 0, 0, 0, 0, 0, 0, 0, 0, 0, 0, 0, 0, 0, 0, 0, 0]
  const ROOT_OPERATION_ID: Bytes := [0, 0, 0, 0, 0, 0, 0, 0, 0, 0, 0, 0, 0, 0, 0, 0]
  const ROOT_VIEW_ID: Bytes := [0, 0, 0, 0, 0, 0, 0, 0, 0, 0, 0, 0, 0, 0, 0, 0]

  datatype RefTarget = RefTarget(removes: seq<Bytes>, adds: seq<Bytes>)

  datatype RemoteRef = RemoteRef(target: Option<RefTarget>, isTracked: bool)

  datatype View = View(
    headIds: seq<Bytes>,
    wcCommitIds: map<Bytes, Bytes>,
    localBookmarks: map<Bytes, RefTarget>,
    remoteBookmarks: map<Bytes, RemoteRef>)

  datatype OperationMetadata = OperationMetadata(
    startTimeMillis: i64,
    endTimeMillis: i64,
    description: Bytes,
    hostname: Bytes,
    username: Bytes,
    isSnapshot: bool,
    workspaceName: Option<Bytes>,
    attributes: map<Bytes, Bytes>)

  datatype CommitPredecessors = CommitPredecessors(commitId: Bytes, predecessorIds: seq<Bytes>)

  datatype Operation = Operation(
    viewId: Bytes,
    parents: seq<Bytes>,
    metadata: Option<OperationMetadata>,
    commitPredecessors: seq<CommitPredecessors>,
    commitPredecessorsSet: bool)

  const ROOT_VIEW: View := View([ROOT_COMMIT_ID], map[], map[], map[])
  const ROOT_OPERATION: Operation :=
    Operation(
      ROOT_VIEW_ID, [],
      Some(OperationMetadata(0, 0, [0x72, 0x6f, 0x6f, 0x74, 0x28, 0x29], [], [], false, None, map[])),
      [], true)
}
