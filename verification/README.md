# Commit cloud: a verified model

A commit-cloud server keeps jj repositories for many clients: content-addressed files, trees,
commits, operations and views, and per repository a list of operation heads. Clients never lock
anything. This project models three connected cores of it in Dafny and proves what they promise.

1. **The op-heads protocol.** `update_op_heads(old_ids, new_id)` filters the list of heads and adds
   the new operation only if it removed something (or was asked to remove nothing). `OpHeads` proves
   over whole runs: no work is lost, the heads form an antichain under jj's transaction discipline,
   superseded operations never return, replaying an update is harmless, and the log is linear without
   locks when every update names an old head. `MemoryStores` holds the imperative list code.
2. **The canonical encoding.** `hash_view` and `hash_operation` build a byte buffer of
   length-prefixed frames, raw little-endian words, flags, sorted lists and sorted maps. `Frames`,
   `Sorting`, `HashUtils`, `BufferLayout`, `ViewHash`, `OperationHash` and `Trees` prove that the buffer does not
   depend on any enumeration order, and exactly what it determines: two views, or two operations, are
   the same if and only if they have one buffer and one shape (the counts that the buffer leaves
   out), and three lemmas show inputs where the buffer alone is ambiguous.
3. **Conversions, handlers and interleaving.** `ClientOpStore`, `ClientOperations` and `Trees` prove
   the round trips between jj values and messages, with the exact condition for each;
   `ViewStability` proves when reading a view and writing it back keeps its id. `Handlers` splits
   each handler into its registration check and its effect, `Interleaving` runs any number of them in
   any order, `SystemHeads` carries the protocol theorems over to what reads report in such runs,
   `References` shows that no reference dangles, and `EndToEnd` follows a value from one client to
   another.

How the parts fit: methods with loops build the buffers, lists and maps as the source does and are
proved equal to specification functions (`HashUtils.ViewPreimage`, `OpHeads.UpdatedHeads`,
`Trees.TreeList`, ...); the theorems are lemmas about these functions. A run is a sequence of states
joined by `Interleaving.Step`, where a request's check and its put are separate events.

Modelling decisions:

- Strings are their UTF-8 bytes, so splitting at `@` and `/` and Rust's string order are exact. The
  `RefTargetTerm` wrapper around a commit id is dropped. `i64` is bounded; lengths below 2^64 are an
  explicit hypothesis (`AllFit`) wherever a length prefix is decoded.
- SHA-1 and gix serialisation are uninterpreted functions (`Hasher`). Operation and view ids are the
  first 16 of the 20 hash bytes, as in the code. No hash is assumed injective: about
  hashing, the end-to-end theorems assume only that no two buffers sent in that run to that
  repository share an id.
- Hash maps are walked in an arbitrary order. `Vec::sort` and `BTreeMap` are taken at their
  documented contracts.
- gix orders tree entries with its own comparator. `Trees.GitCompare` states it, and
  `Trees.GitCompareIsKeyOrder` shows that on distinct names without `/` it is the byte order of names
  with `/` appended to directories, by which the model sorts.
- `RefTarget::from_legacy_form` is modelled as pairing removes and adds with absent padding.

Where comment and code disagree: the comment at server/src/store/memorystore.rs:98-99 says that
concurrent sibling heads are preserved. Siblings already in the list are, but an update whose old ids
have all been replaced meanwhile is dropped (line 126): `OpHeads.NewHeadAdmitted` gives the exact
condition and `OpHeads.ConcurrentSiblingDropped` a two-client run. The comment at
server/src/hash_utils.rs:3 says that length prefixes prevent boundary collisions. They do between
fields of known count, but the buffers carry no counts and raw words carry no prefix:
`ViewHash.RemovesAndAddsCollide`, `OperationHash.StartTimeSixteenCollides` and
`OperationHash.PredecessorsCollide` are the ambiguous inputs.

## Model

| member | source | states |
|---|---|---|
| OpHeads.RetainSpec | server/src/store/memorystore.rs:115-124 | the filter keeps exactly the heads not named, shortens the list exactly when it meets the old ids, keeps distinctness |
| OpHeads.RetainOrder | server/src/store/memorystore.rs:116-124 | any two survivors stood in the same order before the filter |
| OpHeads.UpdatedHeadsSetForm | server/src/store/memorystore.rs:111-128 | the list code is the set (heads − old) ∪ {new} when the update takes effect and the unchanged set otherwise; survivors keep order, the new operation is last, no duplicates |
| OpHeads.NewHeadAdmitted | server/src/store/memorystore.rs:98-128 | the new operation is a head afterwards if and only if the update named nothing, met a current head, or it already was one |
| OpHeads.HeadCountBounds | server/src/store/memorystore.rs:106-131 | in every run there is at least one head, at most one more than the updates that named no old head, and no duplicate |
| OpHeads.Coverage | server/src/store/memorystore.rs:106-131 | if updates replace only ancestors of their operation, everything that was ever a head, root included, is an ancestor of or equal to a current head |
| OpHeads.SingleHead | server/src/store/memorystore.rs:115-128 | if every update names an old head there is always exactly one head |
| OpHeads.LinearLog | server/src/store/memorystore.rs:107-131 | then any two operations that were ever head are comparable by ancestry |
| OpHeads.HeadsFormAntichain | server/src/store/memorystore.rs:100-132 | under the client discipline no head is ever a proper ancestor of another |
| OpHeads.SupersededIsNoHead | server/src/store/memorystore.rs:100-132 | an operation with a proper descendant that was ever head is not a head |
| OpHeads.RetiredStaysRetired | server/src/store/memorystore.rs:100-132 | an operation that was head and is not now never is again |
| OpHeads.RemovedNeverReturns | server/src/store/memorystore.rs:115-128 | a head removed by a non-empty update never returns, whatever disciplined updates follow |
| OpHeads.ReplayIsHarmless | server/src/store/memorystore.rs:115-128 | resubmitting a non-empty update at any later time leaves the heads as they are |
| OpHeads.ConcurrentSiblingDropped | server/src/store/memorystore.rs:126-128 | of two clients that replace the same head, the second one's operation does not become a head |
| OpHeads.EmptyUpdateKeepsAntichain | server/src/store/memorystore.rs:111-114 | an update naming no old head keeps the antichain if and only if its operation is a head already or unrelated to every head it meets when carried out |
| OpHeads.EmptyUpdateRevivesRetired | server/src/store/memorystore.rs:111-114 | so it can bring a retired operation back beside its own descendant when another client's update is carried out first |
| OpHeads.UnheadedParentBreaksAntichain | server/src/store/memorystore.rs:100-132 | in an acyclic graph, with the earlier updates disciplined and only one parent never a head, a run ends with a head beside its own ancestor |
| MemoryStores.RetainNotIn | server/src/store/memorystore.rs:115-124 | the loop with its flag computes the filtered list, and the flag says exactly whether a head was named |
| MemoryStores.MemoryStore.constructor | server/src/store/memorystore.rs:16-25 | a new store is empty |
| MemoryStores.MemoryStore.IsRepoRegistered | server/src/store/memorystore.rs:35-37 | tells exactly whether the repository is registered |
| MemoryStores.MemoryStore.RegisterRepo | server/src/store/memorystore.rs:39-41 | adds the repository and changes nothing else |
| MemoryStores.MemoryStore.PutCommit | server/src/store/memorystore.rs:48-51 | puts one commit in its repository's table, creating the table if missing, and changes nothing else |
| MemoryStores.MemoryStore.GetCommit | server/src/store/memorystore.rs:43-46 | finds exactly what is stored for the repository and id |
| MemoryStores.MemoryStore.PutTree | server/src/store/memorystore.rs:58-61 | puts one tree in its repository's table and changes nothing else |
| MemoryStores.MemoryStore.GetTree | server/src/store/memorystore.rs:53-56 | finds exactly the tree stored for the repository and id |
| MemoryStores.MemoryStore.PutFile | server/src/store/memorystore.rs:68-71 | puts one file in its repository's table and changes nothing else |
| MemoryStores.MemoryStore.GetFile | server/src/store/memorystore.rs:63-66 | finds exactly the file stored for the repository and id |
| MemoryStores.MemoryStore.PutOperation | server/src/store/memorystore.rs:78-81 | puts one operation in its repository's table and changes nothing else |
| MemoryStores.MemoryStore.GetOperation | server/src/store/memorystore.rs:73-76 | finds exactly the operation stored for the repository and id |
| MemoryStores.MemoryStore.PutView | server/src/store/memorystore.rs:88-91 | puts one view in its repository's table and changes nothing else |
| MemoryStores.MemoryStore.GetView | server/src/store/memorystore.rs:83-86 | finds exactly the view stored for the repository and id |
| MemoryStores.MemoryStore.GetOpHeads | server/src/store/memorystore.rs:93-96 | returns the recorded heads, or none |
| MemoryStores.MemoryStore.UpdateOpHeads | server/src/store/memorystore.rs:100-132 | the imperative update refines one step of the protocol, starting from the root head when no list exists, returns the new heads and changes nothing else |
| MemoryStores.GetAfterPut | server/src/store/memorystore.rs:43-91 | a put is seen by reads of its own repository and id and by no other read |
| ByteStrings.LittleEndianRoundTrip | server/src/hash_utils.rs:6 | a number below 256^n survives n little-endian bytes |
| ByteStrings.LittleEndianWeights | server/src/hash_utils.rs:6 | the first byte of a word is its least significant one |
| ByteStrings.U64LeIsLittleEndian | server/src/hash_utils.rs:6 | the length prefix is the eight little-endian bytes of the length |
| ByteStrings.U64LeInjective | server/src/hash_utils.rs:6 | equal length prefixes mean equal lengths below 2^64 |
| ByteStrings.I64LeInjective | server/src/hash_utils.rs:153-154 | equal two's-complement words mean equal times |
| ByteStrings.I64LeValue | server/src/hash_utils.rs:153-154 | a negative time reads as itself plus 2^64, any other as itself |
| Trees.LexDifference | server/src/hash_utils.rs:182-201 | byte strings are ordered by their first difference, a prefix before what extends it |
| Frames.AppendLengthPrefixedBytes | server/src/hash_utils.rs:5-8 | appends exactly one frame |
| Frames.FramePrefixFree | server/src/hash_utils.rs:5-8 | a frame at the front of a buffer is determined, and so is the rest |
| Frames.ParseFramesDecodes | server/src/hash_utils.rs:5-8 | an explicit parser recovers any list of byte strings shorter than 2^64 from its frames |
| Frames.ParseFramesSound | server/src/hash_utils.rs:5-8 | whatever the parser accepts is the framing of what it returns |
| Frames.FrameAllInjective | server/src/hash_utils.rs:5-8 | equal concatenations of frames, of any number, mean equal lists |
| Frames.SharedPrefixCancels | server/src/hash_utils.rs:5-8 | a common list of frames cancels from the front of two buffers |
| Sorting.SortBytesPermutation | server/src/hash_utils.rs:182-201 | two lists sort alike if and only if they are permutations of each other |
| Sorting.AscendingEnumerationUnique | server/src/hash_utils.rs:187-214 | whatever order a hash map yields its keys in, sorting gives one list |
| Sorting.CollectSorted | server/src/hash_utils.rs:162-214 | collecting a hash map in arbitrary order into a sorted map gives the one list of sorted entries |
| HashUtils.AppendRefTarget | server/src/hash_utils.rs:193-204 | appends the sorted removes, then the sorted adds, nothing between them |
| HashUtils.AppendRemotes | server/src/hash_utils.rs:215-221 | per remote bookmark: name, flag byte, target if present |
| HashUtils.ViewBuffer | server/src/hash_utils.rs:179-221 | the loops build the encoding of heads, working copies, local and remote bookmarks |
| HashUtils.AppendMetadata | server/src/hash_utils.rs:152-167 | appends times, texts, flag, workspace name if any, sorted attributes |
| HashUtils.OperationBuffer | server/src/hash_utils.rs:146-173 | the loops build the encoding of view id, parents, metadata and flattened predecessors |
| HashUtils.HashView | server/src/hash_utils.rs:223-224 | the id is the first 16 bytes of the digest of that buffer |
| HashUtils.HashOperation | server/src/hash_utils.rs:174-175 | the id is the first 16 bytes of the digest of that buffer |
| HashUtils.ViewId | server/src/hash_utils.rs:223-224 | 16 bytes long and a prefix of the digest of the view's buffer |
| HashUtils.OperationId | server/src/hash_utils.rs:174-175 | 16 bytes long and a prefix of the digest of the operation's buffer |
| BufferLayout.OperationLayout | server/src/hash_utils.rs:146-173 | the buffer byte by byte: framed view id, framed parents, two 8-byte times, framed description, hostname and username, one byte 0 or 1 for the snapshot flag, then frames only |
| BufferLayout.TailLayout | server/src/hash_utils.rs:159-173 | the last frames are the workspace name if any, each attribute's key and value in key order, and the predecessors |
| BufferLayout.PredecessorLayout | server/src/hash_utils.rs:168-173 | each group adds its commit id followed by its predecessors, after the groups before it |
| BufferLayout.ViewLayout | server/src/hash_utils.rs:179-221 | the buffer byte by byte: sorted heads, working copies, local bookmarks with sorted removes before sorted adds, remote bookmarks with a flag byte before the target |
| ViewHash.ViewPreimageCanonical | server/src/hash_utils.rs:179-221 | views equal up to the order of heads and of removes and adds in each target have one buffer |
| ViewHash.ViewPreimageDecodes | server/src/hash_utils.rs:179-221 | views of one shape (counts and target presence per sorted position) with one buffer are equal up to those orders |
| ViewHash.ViewPreimageCharacterised | server/src/hash_utils.rs:179-221 | any two views are equal up to those orders if and only if they have one buffer and one shape |
| ViewHash.RemovesAndAddsCollide | server/src/hash_utils.rs:193-204 | a remove and an add with the same commit give different targets and one buffer, so the shape is needed |
| OperationHash.TrailingDecode | server/src/hash_utils.rs:159-166 | the trailing frames determine workspace name and attributes: an odd count means a name is there |
| OperationHash.ParentsDecode | server/src/hash_utils.rs:149-153 | parents of any lengths followed by a start time are determined, as long as no parent of either operation has the other's start time for its length |
| OperationHash.OperationBufferDetermines | server/src/hash_utils.rs:146-173 | exactly what the buffer determines, predecessors or not: two operations with separable parents have one buffer if and only if they agree in every field up to the snapshot flag and flatten workspace name, attributes and predecessors to one list |
| OperationHash.OperationPreimageCharacterised | server/src/hash_utils.rs:146-173 | any two operations, with any parents, times and predecessors, are equal up to the unhashed commit_predecessors_set if and only if they have one buffer and one shape (counts of parents, attributes, groups and ids per group, presence of metadata and workspace name) |
| OperationHash.OperationPreimageDecodes | server/src/hash_utils.rs:146-173 | without predecessors, and with separable parents, the buffer alone decides every field but that flag |
| OperationHash.ReadableSeparable | server/src/hash_utils.rs:149-153 | operations with 16-byte parents and a start time other than 16 have separable parents |
| OperationHash.StartTimeSixteenCollides | server/src/hash_utils.rs:149-153 | with start time 16 a parentless operation has the buffer of one with a parent |
| OperationHash.PredecessorsCollide | server/src/hash_utils.rs:168-173 | regrouping predecessors, or their set flag, does not change the buffer |
| Trees.ComputeTreeList | server/src/hash_utils.rs:99-131 | the loop keeps the entries with 20-byte ids, kinds mapped, in Git order |
| Trees.GitKinds | server/src/hash_utils.rs:99-128 | which Git kind and id each kind of entry gets; ids that are not 20 bytes long are dropped, and a missing or conflict value stands for a blob of zeros |
| Trees.TreeListContents | server/src/hash_utils.rs:99-131 | the list holds what its entries contribute, no more and no less |
| Trees.GitCompareIsKeyOrder | server/src/hash_utils.rs:130-131 | Git's directory-aware comparison is the byte order of names with '/' after directories, on distinct names without '/' |
| Trees.TreeListCanonical | server/src/hash_utils.rs:96-131 | the hashed list does not depend on the order of the request |
| Trees.TreeListGitSorted | server/src/hash_utils.rs:130-131 | the hashed list is strictly ascending in Git's order: by name bytes, directories as if their names ended in '/' |
| Trees.TreeListDetermines | server/src/hash_utils.rs:96-131 | two client trees hash one list if and only if they are equal but for copy ids |
| Trees.TreeWritable | lib/src/cc_backend.rs:156-186 | a tree converts if and only if it has no submodule |
| Trees.ReadEntries | lib/src/cc_backend.rs:364-370 | the reading loop converts all entries in order or fails at the first bad one |
| Trees.TreeFromProtoExactly | lib/src/cc_backend.rs:188-204 | a tree reads if and only if every entry has a non-empty name without '/' and a value that is no conflict, and then entry by entry, copy ids that are not 20 bytes long becoming zeros |
| Trees.TreeRoundTrip | lib/src/cc_backend.rs:156-204 | a written tree is read back with its copy ids normalised |
| Trees.TreeListStable | lib/src/cc_backend.rs:156-204 | reading a tree and writing it back hashes the list of the first write |
| Trees.EmptyTreeIdsAgree | common/src/lib.rs:17-21 | the hexadecimal id that clients compare with spells the bytes that the server compares with |
| JjTypes.LegacyFormTerms | lib/src/cc_op_store.rs:34-44 | the paired form has exactly the removes and adds it was made from, in order |
| JjTypes.TermsOfPairs | lib/src/cc_op_store.rs:18-31 | a target's first term is an add, then removes and adds alternate, and absent terms are skipped |
| ClientOpStore.RefTargetStable | lib/src/cc_op_store.rs:18-44 | a target message survives conversion to jj and back; its removes are the removed ids and its adds the added ids |
| ClientOpStore.RefTargetRecovered | lib/src/cc_op_store.rs:18-44 | a jj target keeps its present removed and added ids in order |
| ClientOpStore.RsplitInvertsKey | lib/src/cc_op_store.rs:155-204 | splitting `bookmark@remote` at the last '@' inverts printing if and only if the remote has no '@' |
| ClientOpStore.RsplitOnceExactly | lib/src/cc_op_store.rs:204 | a key splits into the parts around its last '@', or not at all when it has none |
| ClientOpStore.RemoteBookmarksPrint | lib/src/cc_op_store.rs:152-164 | the flat map has exactly the printed bookmarks as keys, each with a value printed under it, even when keys coincide |
| ClientOpStore.LastRemoteWins | lib/src/cc_op_store.rs:152-164 | when bookmarks of several remotes print one key, the last remote in name order provides the value, with its present terms and tracked flag |
| ClientOpStore.ViewToProtoExactly | lib/src/cc_op_store.rs:136-172 | every field of the message in terms of the view |
| ClientOpStore.ViewFromProtoExactly | lib/src/cc_op_store.rs:174-224 | every field of the view made of any message: remote keys split at the last '@' or dropped, missing targets absent, tracked as sent, and no tags, git refs or git head |
| ClientOpStore.WriteViewProto | lib/src/cc_op_store.rs:136-172 | the nested loops compute the message that ViewToProtoExactly describes, heads in any order |
| ClientOpStore.ReadRemoteBookmarks | lib/src/cc_op_store.rs:190-213 | the reading loop gives the same nested map in whatever order the hash map is walked |
| ClientOpStore.ReadViewProto | lib/src/cc_op_store.rs:174-224 | the loops compute the view that ViewFromProtoExactly describes |
| ClientOpStore.ViewRoundTrip | lib/src/cc_op_store.rs:136-224 | heads, working copies, every bookmark's terms and every remote with a bookmark come back, and nothing is made up for the rest, if and only if no remote with a bookmark has '@' in its name |
| ClientOpStore.WholeViewRoundTrip | lib/src/cc_op_store.rs:136-224 | the whole view comes back, terms in order, if and only if besides that it has no tags, git refs or git head and every remote has a bookmark |
| ViewStability.RemotesKept | lib/src/cc_op_store.rs:152-213 | reading and rewriting the flat map keeps exactly the keys with an '@' |
| ViewStability.ReadBackStable | lib/src/cc_op_store.rs:136-224 | any stored view, read and written back, has the same buffer if and only if its heads are distinct and every remote key has an '@' |
| ViewStability.ViewIdStable | lib/src/cc_op_store.rs:136-224 | a view written by a client, '@' in remote names included, keeps its id when read and written back |
| ViewStability.ViewIdOrderFree | lib/src/cc_op_store.rs:137-141 | the id does not depend on the order in which heads are enumerated |
| ClientOperations.ReadOperationProto | lib/src/cc_op_store.rs:86-134 | the loop computes the operation that OperationFromProtoExactly describes |
| ClientOperations.OperationToProtoExactly | lib/src/cc_op_store.rs:46-84 | every field of the message; predecessor groups are the map's entries, one each, ascending by commit id |
| ClientOperations.OperationFromProtoExactly | lib/src/cc_op_store.rs:86-134 | every field of the operation made of any message: times in UTC, missing metadata empty, per commit id the last group |
| ClientOperations.OperationRoundTrip | lib/src/cc_op_store.rs:46-134 | an operation comes back with its time zones zeroed and nothing else changed; absent and empty predecessors stay apart |
| ClientOperations.OperationRoundTripExact | lib/src/cc_op_store.rs:86-95 | it comes back unchanged if and only if both offsets are zero |
| ClientOperations.OperationIdStable | lib/src/cc_op_store.rs:46-134 | writing back an operation just read gives the same message and id |
| Handlers.Admit | server/src/error_util.rs:3-14 | a request passes its check if and only if the repository is registered and the body present; which refusal it gets otherwise depends on which of the two the handler looks at first |
| Handlers.Server.HandleRegisterRepository | server/src/backend.rs:25-33 | registers the drawn id and returns it |
| Handlers.Server.HandleWriteCommit | server/src/backend.rs:55-78 | a commit without an id is stored under its hash, any other under the id it brings; registration is checked before the body |
| Handlers.Server.HandleWriteTree | server/src/backend.rs:108-122 | the tree is stored as sent, under the hash of its filtered and sorted list |
| Handlers.Server.HandleWriteFile | server/src/backend.rs:153-167 | the content is stored under its blob hash |
| Handlers.Server.HandleWriteOperation | server/src/op_store.rs:78-101 | the operation is stored under the id of its buffer; a missing body is refused before the registration is looked at |
| Handlers.Server.HandleWriteView | server/src/op_store.rs:143-163 | the view is stored under the id of its buffer; a missing body is refused before the registration is looked at |
| Handlers.Server.HandleUpdateOpHeads | server/src/op_store.rs:186-204 | one protocol step on the repository's heads, which are returned |
| Handlers.Server.HandleReadCommit | server/src/backend.rs:35-53 | the stored commit, missing if there is none, refused if the repository is unknown; no built-in root commit |
| Handlers.Server.HandleReadFile | server/src/backend.rs:127-149 | the stored content in one piece, missing if there is none, refused if the repository is unknown |
| Handlers.Server.HandleReadTree | server/src/backend.rs:80-106 | the empty tree's id reads as no entries without a lookup |
| Handlers.Server.HandleReadOperation | server/src/op_store.rs:25-76 | uninterrupted, the handler answers as OperationReadOrigin and RootReadable describe: a stored operation wins over the built-in root |
| Handlers.Server.HandleReadView | server/src/op_store.rs:103-141 | uninterrupted, the handler answers as ViewReadOrigin and RootReadable describe: a stored view wins over the built-in root |
| Handlers.Server.HandleGetOpHeads | server/src/op_store.rs:165-184 | uninterrupted, the handler answers as HeadsRead describes: the recorded heads, or the root when none are recorded |
| Interleaving.UninterruptedIsHandled | server/src/backend.rs:55-167 | the two events of a request, back to back, are the handler |
| Interleaving.RunExists | server/src/backend.rs:25-167 | every order of events is a run |
| Interleaving.RegisteredExactly | server/src/backend.rs:25-33 | a repository is known from its registration on, and not before |
| Interleaving.RequestAdmitted | server/src/error_util.rs:3-14 | a new request with a body for a registered repository is let through, every other one refused |
| Interleaving.ReachableInvariant | server/src/store/memorystore.rs:35-91 | in every reachable state data belongs to registered repositories, files, trees, operations and views lie under the hash of their value, commits under the id they carry |
| Interleaving.NothingDisappears | server/src/store/memorystore.rs:39-91 | registrations and keys never disappear, whatever is interleaved |
| Interleaving.RepliesStay | server/src/backend.rs:55-167 | a reply, once given, is never changed or withdrawn |
| Interleaving.AnsweredIsStored | server/src/backend.rs:55-167 | once a write is answered, its object is in every later state |
| Interleaving.FileReadAfterWrite | server/src/backend.rs:127-167 | every later read of an answered file write finds content with that hash |
| Interleaving.OperationReadAfterWrite | server/src/op_store.rs:25-101 | every later read of an answered operation write finds a stored operation with that id |
| Interleaving.ViewReadAfterWrite | server/src/op_store.rs:103-163 | every later read of an answered view write finds a stored view with that id |
| Interleaving.TreeReadAfterWrite | server/src/backend.rs:80-122 | every later read of an answered tree write finds a tree with that id, or no entries for the empty tree's id |
| Interleaving.StoredCommitWasSent | server/src/backend.rs:55-78 | every stored commit is one that was sent for that repository, changed in nothing but its id: the one it came with, or else its hash |
| Interleaving.CommitsContentAddressed | lib/src/cc_backend.rs:114-127 | when no commit is sent with an id of its own, as the client never does, every stored commit lies under the hash of the commit as sent |
| Interleaving.CommitReadAfterWrite | server/src/backend.rs:35-78 | every later read of an answered commit write finds a sent commit carrying that id, which is the one sent or else the hash; with that hash when no ids of their own are sent |
| Interleaving.FileReadOrigin | server/src/backend.rs:127-149 | whatever is interleaved, a file read is refused exactly before registration, and finds only content that was sent and has that id |
| Interleaving.TreeReadOrigin | server/src/backend.rs:80-106 | likewise for trees, besides the empty tree |
| Interleaving.CommitReadOrigin | server/src/backend.rs:35-53 | likewise for commits, which carry the id asked for |
| Interleaving.OperationReadOrigin | server/src/op_store.rs:25-76 | likewise for operations, besides the root operation, whose id is always found |
| Interleaving.ViewReadOrigin | server/src/op_store.rs:103-141 | likewise for views, besides the root view, whose id is always found |
| Interleaving.OtherRepositoriesUntouched | server/src/store/memorystore.rs:43-132 | no step for one repository changes anything held for another |
| Interleaving.StoredWasRequested | server/src/store/memorystore.rs:53-91 | every stored tree, file, operation and view was sent by some request for that repository |
| SystemHeads.HeadsProjection | server/src/op_store.rs:165-204 | in any interleaving the heads of a repository are those of its own updates run one after another |
| SystemHeads.HeadsRead | server/src/op_store.rs:165-184 | a read, its check and its lookup apart, is refused unless the repository was registered by the check, and else reports the outcome of all updates carried out by the lookup, from the root on |
| SystemHeads.UpdateReply | server/src/op_store.rs:186-204 | an update is answered with the heads that a read right after it reports |
| SystemHeads.SystemCoverage | server/src/op_store.rs:165-204 | no work is lost: a head that a read reported is covered by one of those that any later read reports |
| SystemHeads.SystemLinearLog | lib/src/cc_op_heads_store.rs:43-91 | without locks, if every update sent names and advances old heads, every read reports one head and any two heads ever reported are comparable |
| SystemHeads.SystemAntichain | server/src/op_store.rs:186-204 | in an acyclic graph, if clients name exactly the parents, each a head that reads reported before the update was sent, and updates naming no old head meet, when carried out, only heads unrelated or equal to their operation, no read ever reports a head beside its ancestor |
| SystemHeads.SystemAntichainExactly | server/src/op_store.rs:186-204 | given the other two, that last condition holds if and only if every read reports an antichain |
| SystemHeads.SystemReplayIsHarmless | lib/src/cc_op_heads_store.rs:43-69 | under the conditions of SystemAntichain, an update naming old heads that is carried out a second time, at any later moment, leaves what reads report as it was |
| References.RootValues | server/src/op_store.rs:49-70 | what a client makes of the built-in root operation and view: no parents, the epoch in UTC, the root view's id, and one head, the root commit |
| References.RootReadable | server/src/op_store.rs:49-141 | in a registered repository the root operation and the root view are read, the built-in ones unless something is stored under their ids |
| References.HeadsReadable | server/src/op_store.rs:25-204 | if clients name only what writes had returned, every head that a read reports can be read as an operation at any later time |
| References.OperationReferencesReadable | server/src/op_store.rs:25-141 | and every operation that is read has its view and its parents readable from then on |
| EndToEnd.AnsweredIdIsHash | server/src/backend.rs:55-167 | the id that a write returns is the hash of what was sent: of the content, of the sorted tree list, of the commit unless it brought an id, and the first 16 bytes of the digest of the operation's or view's buffer |
| EndToEnd.CommitReadsBack | server/src/backend.rs:35-78 | a commit reads back with the hash of the one written when clients send no ids of their own |
| EndToEnd.FileReadsBack | server/src/backend.rs:127-167 | without collisions a file reads back byte for byte |
| EndToEnd.OperationReadsSameBuffer | server/src/op_store.rs:25-101 | without collisions the operation read has the buffer of the one written |
| EndToEnd.OperationReadsHead | server/src/op_store.rs:25-101 | with or without predecessors, every field up to the snapshot flag and the flattened list of the others come back, when operations sharing its buffer have 16-byte parents and a start time other than 16 |
| EndToEnd.OperationReadsBack | server/src/op_store.rs:25-101 | a client's operation, predecessors included, comes back as itself without time zones when the operation found has its shape; if only the unhashed flag differs, nothing but commit_predecessors can |
| EndToEnd.PlainOperationReadsBack | server/src/op_store.rs:25-101 | without predecessors the shape need not be known; only absent and empty predecessors are confused |
| EndToEnd.OperationWriteBackKeepsId | lib/src/cc_op_store.rs:46-134 | writing back an operation read from the server gives the id it was read by |
| EndToEnd.ViewReadsSameBuffer | server/src/op_store.rs:103-163 | without collisions the view read has the buffer of the one written |
| EndToEnd.ViewReadsBack | server/src/op_store.rs:103-163 | and equals it up to the order of repeated fields when it has its shape |
| EndToEnd.ViewWriteBackKeepsId | lib/src/cc_op_store.rs:136-224 | writing back a view read from the server gives the id it was read by, '@' in remote names included |
| EndToEnd.TreeReadsBack | lib/src/cc_backend.rs:328-396 | a client's tree, empty or not, reads back as itself up to copy ids |
| EndToEnd.TreeWriteBackKeepsId | lib/src/cc_backend.rs:328-396 | writing back a tree read from the server gives the id it was read by |
| EndToEnd.ClientReadTreeExactly | lib/src/cc_backend.rs:328-371 | a client reads a tree if and only if its id is the empty tree's, or the server finds entries all of which it accepts |

## Left out

- Interleaving.CommitReadAfterWrite: promises the hash only when clients send no ids of their own, because two different commits may be sent under one explicit id and the last one wins; fields outside the hash (labels, predecessors, further root trees) may differ even then.
- ViewHash.ViewPreimageDecodes: needs equal shapes, because the buffer carries no counts (server/src/hash_utils.rs:193-204).
- OperationHash.OperationBufferDetermines: needs equally many parents, or none as long as the other operation's start time reads (server/src/hash_utils.rs:149-153), because a parent's length prefix and a start time look alike.
- OperationHash.OperationPreimageDecodes: leaves out predecessors, whose groups are flattened (server/src/hash_utils.rs:168-173); with them OperationPreimageCharacterised needs the shape.
- EndToEnd.PlainOperationReadsBack: says nothing when either operation has predecessors; OperationReadsBack and OperationReadsHead do.
- ClientOpStore.ViewRoundTrip: the fields that the messages do not carry are lost (WholeViewRoundTrip says exactly when nothing is), and positions of absent terms in a target are not claimed.
- Tags inside a jj remote view: the conversions read and fill its bookmarks only (lib/src/cc_op_store.rs:153-211), and so does the model's remote view.
- Trees.GitCompareIsKeyOrder: names that repeat or contain '/' are not covered; gix's unstable sort may then order equal entries either way, and gix panics on a name with a NUL byte.
- Conversion of commits (`commit_to_proto`, `commit_from_proto`) and the text of the Git commit object: conflict labels and the merge builder are jj_lib code; commits are kept to the id they carry.
- SHA-1, gix serialisation and jj_lib itself: uninterpreted or taken at the contracts stated above.
- `resolve_operation_id_prefix`, symlink, copy and gc entry points: stubs.
- Freshness of repository ids (random UUIDs): a parameter.
- gRPC, streaming of file chunks, async tasks, logging, configuration, the command line and durability: no decidable content here.
