/** Trees: the entry list that compute_git_tree_hash serialises, and the client's tree entries. */
module Trees {
  import opened ByteStrings
  import opened Wrappers
  import opened Sorting
  import opened OpStoreProto

  const OBJECT_ID_LENGTH: nat := 20
  const EMPTY_TREE_ID: Bytes :=
    [0x4b, 0x82, 0x5d, 0xc6, 0x42, 0xcb, 0x6e, 0xb9, 0xa0, 0x60, 0xe5,
     0x4b, 0xf8, 0xd6, 0x92, 0x88, 0xfb, 0xee, 0x49, 0x04]
  const EMPTY_TREE_ID_HEX: string := "4b825dc642cb6eb9a060e54bf8d69288fbee4904"
  const SLASH: byte := 0x2f

  // ---------- Messages (common/proto/backend.proto) ----------

  datatype TreeValue =
    | FileValue(id: Bytes, executable: bool, copyId: Bytes)
    | SymlinkValue(id: Bytes)
    | SubtreeValue(id: Bytes)
    | ConflictValue(id: Bytes)

  /** Both the TreeValue message and the oneof inside it may be missing. */
  datatype TreeEntry = TreeEntry(name: Bytes, value: Option<Option<TreeValue>>)

  // ---------- The empty tree's two spellings ----------

  function HexDigit(c: char): int {
    if '0' <= c <= '9' then c as int - '0' as int
    else if 'a' <= c <= 'f' then c as int - 'a' as int + 10
    else -1
  }

  /** Two hexadecimal digits give one byte. */
  predicate EmptyTreeByte(i: nat)
    requires i < 20
  {
    EMPTY_TREE_ID[i] == 16 * HexDigit(EMPTY_TREE_ID_HEX[2 * i]) + HexDigit(EMPTY_TREE_ID_HEX[2 * i + 1])
  }

  /** The id that clients spell in hexadecimal is the one that the server compares with. */
  lemma EmptyTreeIdsAgree()
    ensures |EMPTY_TREE_ID_HEX| == 40 && |EMPTY_TREE_ID| == 20
    ensures forall i :: 0 <= i < 20 ==> EmptyTreeByte(i)
  {
    EmptyTreeBytes0();
    EmptyTreeBytes5();
    EmptyTreeBytes10();
    EmptyTreeBytes15();
  }

  lemma EmptyTreeBytes0()
    ensures EmptyTreeByte(0) && EmptyTreeByte(1) && EmptyTreeByte(2) && EmptyTreeByte(3) && EmptyTreeByte(4)
  {
  }

  lemma EmptyTreeBytes5()
    ensures EmptyTreeByte(5) && EmptyTreeByte(6) && EmptyTreeByte(7) && EmptyTreeByte(8) && EmptyTreeByte(9)
  {
  }

  lemma EmptyTreeBytes10()
    ensures EmptyTreeByte(10) && EmptyTreeByte(11) && EmptyTreeByte(12) && EmptyTreeByte(13) && EmptyTreeByte(14)
  {
  }

  lemma EmptyTreeBytes15()
    ensures EmptyTreeByte(15) && EmptyTreeByte(16) && EmptyTreeByte(17) && EmptyTreeByte(18) && EmptyTreeByte(19)
  {
  }

  // ---------- What is hashed ----------

  datatype EntryKind = Blob | BlobExecutable | Tree | Link

  datatype GitEntry = GitEntry(kind: EntryKind, filename: Bytes, oid: Bytes)

  /** The object kind and id of an entry; a missing or conflict value falls back to a zero blob. */
  function KindAndId(e: TreeEntry): (EntryKind, Bytes) {
    match e.value
    case Some(Some(FileValue(id, executable, _))) => (if executable then BlobExecutable else Blob, id)
    case Some(Some(SubtreeValue(id))) => (Tree, id)
    case Some(Some(SymlinkValue(id))) => (Link, id)
    case _ => (Blob, ROOT_COMMIT_ID)
  }

  /** Entries whose id is not 20 bytes long are left out. */
  function ToGitEntry(e: TreeEntry): Option<GitEntry> {
    var (kind, id) := KindAndId(e);
    if |id| == OBJECT_ID_LENGTH then Some(GitEntry(kind, e.name, id)) else None
  }

  function Hashed(e: TreeEntry): seq<GitEntry> {
    match ToGitEntry(e)
    case None => []
    case Some(g) => [g]
  }

  function GitEntries(es: seq<TreeEntry>): seq<GitEntry> {
    if es == [] then [] else Hashed(es[0]) + GitEntries(es[1..])
  }

  datatype Ordering = Less | Equal | Greater

  function CompareBytes(a: Bytes, b: Bytes): Ordering {
    if a == b then Equal else if LexLe(a, b) then Less else Greater
  }

  /** The character of a name at `i`, with the '/' that a directory's name ends in for sorting. */
  function NameAt(e: GitEntry, i: nat): Option<byte> {
    if i < |e.filename| then Some(e.filename[i]) else if e.kind == Tree then Some(SLASH) else None
  }

  /** gix's tree entry order, as assumed: the common prefix of the names decides, then the next
      character, where the end of a name counts as '/' for directories and as nothing for others. */
  function GitCompare(a: GitEntry, b: GitEntry): Ordering {
    var common := if |a.filename| <= |b.filename| then |a.filename| else |b.filename|;
    match CompareBytes(a.filename[..common], b.filename[..common])
    case Less => Less
    case Greater => Greater
    case Equal =>
      match (NameAt(a, common), NameAt(b, common))
      case (None, None) => Equal
      case (None, Some(_)) => Less
      case (Some(_), None) => Greater
      case (Some(x), Some(y)) => if x < y then Less else if x == y then Equal else Greater
  }

  /** The name with a '/' appended for directories. */
  function GitKey(e: GitEntry): Bytes {
    if e.kind == Tree then e.filename + [SLASH] else e.filename
  }

  /** The list that is serialised and hashed: filtered, then sorted. */
  function TreeList(es: seq<TreeEntry>): seq<GitEntry> {
    SortOn(GitKey, GitEntries(es))
  }

  method ComputeTreeList(entries: seq<TreeEntry>) returns (gixEntries: seq<GitEntry>)
    ensures gixEntries == TreeList(entries)
  {
    gixEntries := [];
    for i := 0 to |entries|
      invariant gixEntries == GitEntries(entries[..i])
    {
      GitEntriesAppend(entries[..i], [entries[i]]);
      OneGitEntry(entries[i]);
      assert entries[..i + 1] == entries[..i] + [entries[i]];
      match ToGitEntry(entries[i]) {
        case Some(g) => gixEntries := gixEntries + [g];
        case None =>
      }
    }
    assert entries[..|entries|] == entries;
    gixEntries := SortOn(GitKey, gixEntries);
  }

  // ---------- The key order is Git's order ----------

  predicate PlainName(name: Bytes) {
    SLASH !in name
  }

  lemma {:induction false} LexDifference(a: Bytes, b: Bytes, i: nat)
    requires i <= |a| && i <= |b| && a[..i] == b[..i]
    requires i == |a| || (i < |b| && a[i] != b[i])
    ensures LexLe(a, b) <==> i == |a| || a[i] < b[i]
  {
    if i == 0 {
    } else {
      assert a[0] == a[..i][0] && b[0] == b[..i][0];
      assert a[1..][..i - 1] == a[..i][1..] && b[1..][..i - 1] == b[..i][1..];
      LexDifference(a[1..], b[1..], i - 1);
    }
  }

  lemma {:induction false} LexPrefixDecides(a: Bytes, b: Bytes, n: nat)
    requires n <= |a| && n <= |b| && a[..n] != b[..n]
    ensures LexLe(a, b) <==> LexLe(a[..n], b[..n])
  {
    if a[0] == b[0] {
      TailOfPrefix(a, n);
      TailOfPrefix(b, n);
      LexPrefixDecides(a[1..], b[1..], n - 1);
    }
  }

  lemma TailOfPrefix(a: Bytes, n: nat)
    requires 0 < n <= |a|
    ensures a[..n][0] == a[0] && a[..n][1..] == a[1..][..n - 1] && a[..n] == [a[0]] + a[1..][..n - 1]
  {
  }

  /** On distinct '/'-free names Git's comparison is the byte order of the keys. */
  lemma GitCompareIsKeyOrder(a: GitEntry, b: GitEntry)
    requires PlainName(a.filename) && PlainName(b.filename) && a.filename != b.filename
    ensures GitCompare(a, b) != Equal && GitKey(a) != GitKey(b)
    ensures GitCompare(a, b) == Less <==> LexLe(GitKey(a), GitKey(b))
  {
    var n := if |a.filename| <= |b.filename| then |a.filename| else |b.filename|;
    var ka, kb := GitKey(a), GitKey(b);
    assert ka[..n] == a.filename[..n] && kb[..n] == b.filename[..n];
    if ka[..n] != kb[..n] {
      LexPrefixDecides(ka, kb, n);
    } else {
      assert a.filename[..|a.filename|] == a.filename && b.filename[..|b.filename|] == b.filename;
      assert |a.filename| != |b.filename|;
      NextCharacterDecides(a, b, n);
    }
  }

  lemma NextCharacterDecides(a: GitEntry, b: GitEntry, n: nat)
    requires PlainName(a.filename) && PlainName(b.filename) && |a.filename| != |b.filename|
    requires n == (if |a.filename| <= |b.filename| then |a.filename| else |b.filename|)
    requires a.filename[..n] == b.filename[..n]
    ensures GitCompare(a, b) != Equal && GitKey(a) != GitKey(b)
    ensures GitCompare(a, b) == Less <==> LexLe(GitKey(a), GitKey(b))
  {
    var ka, kb := GitKey(a), GitKey(b);
    assert ka[..n] == kb[..n] by {
      assert ka[..n] == a.filename[..n] && kb[..n] == b.filename[..n];
    }
    if n == |a.filename| {
      assert b.filename[n] in b.filename;
      assert kb[n] == b.filename[n];
      LexDifference(ka, kb, n);
    } else {
      assert a.filename[n] in a.filename;
      assert ka[n] == a.filename[n];
      if b.kind == Tree {
        LexDifference(ka, kb, n);
      } else {
        LexDifference(kb, ka, n);
        LexLonger(ka, kb, n);
      }
    }
  }

  lemma LexLonger(a: Bytes, b: Bytes, n: nat)
    requires n == |b| < |a| && a[..n] == b
    ensures !LexLe(a, b)
  {
    if LexLe(a, b) {
      assert b[..n] == b;
      LexDifference(b, a, n);
      LexAntisymmetric(a, b);
    }
  }

  // ---------- Canonicity ----------

  ghost predicate DistinctPlainNames(gs: seq<GitEntry>) {
    && (forall g :: g in gs ==> PlainName(g.filename))
    && (forall i, j :: 0 <= i < j < |gs| ==> gs[i].filename != gs[j].filename)
  }

  lemma KeysInjective(gs: seq<GitEntry>)
    requires DistinctPlainNames(gs)
    ensures KeyInjectiveOn(GitKey, gs)
  {
    forall x, y | x in gs && y in gs && GitKey(x) == GitKey(y) ensures x == y {
      if x.filename != y.filename {
        GitCompareIsKeyOrder(x, y);
      }
    }
  }

  /** What Git is told of each kind of entry; an entry without a 20-byte id is left out, and one
      without a value, or with a conflict, stands for a blob of twenty zero bytes. */
  lemma GitKinds(name: Bytes, id: Bytes, executable: bool, copyId: Bytes)
    ensures var file := TreeEntry(name, Some(Some(FileValue(id, executable, copyId))));
      Hashed(file) == if |id| == 20 then [GitEntry(if executable then BlobExecutable else Blob, name, id)] else []
    ensures Hashed(TreeEntry(name, Some(Some(SubtreeValue(id))))) == if |id| == 20 then [GitEntry(Tree, name, id)] else []
    ensures Hashed(TreeEntry(name, Some(Some(SymlinkValue(id))))) == if |id| == 20 then [GitEntry(Link, name, id)] else []
    ensures var zeros: Bytes := [0, 0, 0, 0, 0, 0, 0, 0, 0, 0, 0, 0, 0, 0, 0, 0, 0, 0, 0, 0];
      Hashed(TreeEntry(name, None)) == Hashed(TreeEntry(name, Some(None)))
      == Hashed(TreeEntry(name, Some(Some(ConflictValue(id))))) == [GitEntry(Blob, name, zeros)]
  {
  }

  /** The list holds exactly what its entries contribute. */
  lemma TreeListContents(es: seq<TreeEntry>, ds: seq<TreeEntry>)
    ensures multiset(TreeList(es + ds)) == multiset(TreeList(es)) + multiset(TreeList(ds))
    ensures |es| == 1 ==> TreeList(es) == Hashed(es[0])
  {
    GitEntriesAppend(es, ds);
    if |es| == 1 {
      assert es == [es[0]];
      OneGitEntry(es[0]);
    }
  }

  lemma OneGitEntry(e: TreeEntry)
    ensures GitEntries([e]) == Hashed(e)
  {
    assert [e][1..] == [];
    assert GitEntries([e]) == Hashed(e) + [];
  }

  lemma {:induction false} GitEntriesAppend(es: seq<TreeEntry>, ds: seq<TreeEntry>)
    ensures GitEntries(es + ds) == GitEntries(es) + GitEntries(ds)
  {
    if es == [] {
      assert es + ds == ds;
      assert [] + GitEntries(ds) == GitEntries(ds);
    } else {
      GitEntriesAppend(es[1..], ds);
      assert (es + ds)[0] == es[0] && (es + ds)[1..] == es[1..] + ds;
      GitAssoc(Hashed(es[0]), GitEntries(es[1..]), GitEntries(ds));
    }
  }

  lemma GitAssoc(a: seq<GitEntry>, b: seq<GitEntry>, c: seq<GitEntry>)
    ensures (a + b) + c == a + (b + c)
  {
  }

  lemma GitEntriesAround(a: seq<TreeEntry>, e: TreeEntry, b: seq<TreeEntry>)
    ensures multiset(GitEntries(a + ([e] + b))) == multiset(Hashed(e)) + multiset(GitEntries(a + b))
  {
    GitEntriesAppend(a, [e] + b);
    GitEntriesAppend([e], b);
    GitEntriesAppend(a, b);
    OneGitEntry(e);
  }

  lemma CutAtFirst(es: seq<TreeEntry>, ds: seq<TreeEntry>) returns (a: seq<TreeEntry>, b: seq<TreeEntry>)
    requires es != [] && multiset(es) == multiset(ds)
    ensures ds == a + ([es[0]] + b) && multiset(es[1..]) == multiset(a + b)
  {
    SameElements(es, ds);
    assert es[0] in ds;
    var i :| 0 <= i < |ds| && ds[i] == es[0];
    a, b := ds[..i], ds[i + 1..];
    CutOut(ds, i);
    AroundMultiset(a, es[0], b);
    TailMultiset(es);
  }

  lemma {:induction false} GitEntriesMultiset(es: seq<TreeEntry>, ds: seq<TreeEntry>)
    requires multiset(es) == multiset(ds)
    ensures multiset(GitEntries(es)) == multiset(GitEntries(ds))
  {
    if es == [] {
      SameElements(es, ds);
    } else {
      var a, b := CutAtFirst(es, ds);
      GitEntriesMultiset(es[1..], a + b);
      GitEntriesAround(a, es[0], b);
    }
  }

  /** The hashed list does not depend on the order of the entries in the request. */
  lemma TreeListCanonical(es: seq<TreeEntry>, ds: seq<TreeEntry>)
    requires multiset(es) == multiset(ds) && DistinctPlainNames(GitEntries(es))
    ensures TreeList(es) == TreeList(ds)
  {
    GitEntriesMultiset(es, ds);
    KeysInjective(GitEntries(es));
    SortOnPermutation(GitKey, GitEntries(es), GitEntries(ds));
  }

  lemma PlainKey(g: GitEntry)
    ensures GitKey(g) == g.filename + (if g.kind == Tree then [0x2f] else [])
  {
    assert g.filename + [] == g.filename;
  }

  /** The hashed list is strictly ascending in Git's own order: names in byte order, those of
      directories as if they ended in '/'. */
  lemma TreeListGitSorted(es: seq<TreeEntry>, i: nat, j: nat)
    requires DistinctPlainNames(GitEntries(es)) && i < j < |TreeList(es)|
    ensures GitCompare(TreeList(es)[i], TreeList(es)[j]) == Less
    ensures var g, k := TreeList(es)[i], TreeList(es)[j];
      LexLe(g.filename + (if g.kind == Tree then [0x2f] else []), k.filename + (if k.kind == Tree then [0x2f] else []))
  {
    var gs, ts := GitEntries(es), TreeList(es);
    PlainKey(ts[i]);
    PlainKey(ts[j]);
    SortOnSorted(GitKey, gs);
    SameElements(gs, ts);
    assert ts[i] in gs && ts[j] in gs;
    if ts[i].filename == ts[j].filename {
      SameNameTwice(gs, ts, i, j);
    } else {
      GitCompareIsKeyOrder(ts[i], ts[j]);
    }
  }

  /** A permutation of distinctly named entries is distinctly named. */
  lemma SameNameTwice(gs: seq<GitEntry>, ts: seq<GitEntry>, i: nat, j: nat)
    requires multiset(ts) == multiset(gs) && DistinctPlainNames(gs) && i < j < |ts|
    ensures ts[i].filename != ts[j].filename
  {
    assert Distinct(gs);
    forall x ensures multiset(ts)[x] <= 1 { DistinctCount(gs, x); }
    DistinctFromCount(ts);
    SameElements(ts, gs);
    assert ts[i] in gs && ts[j] in gs && ts[i] != ts[j];
  }

  // ---------- The client's tree entries ----------

  datatype JjTreeValue =
    | JjFile(id: Bytes, executable: bool, copyId: Bytes)
    | JjSymlink(id: Bytes)
    | JjTree(id: Bytes)
    | JjGitSubmodule(id: Bytes)

  type JjTreeEntry = (Bytes, JjTreeValue)

  /** `tree_entry_to_proto`; submodules are unsupported. */
  function TreeEntryToProto(e: JjTreeEntry): Result<TreeEntry> {
    match e.1
    case JjFile(id, executable, copyId) => Success(TreeEntry(e.0, Some(Some(FileValue(id, executable, copyId)))))
    case JjSymlink(id) => Success(TreeEntry(e.0, Some(Some(SymlinkValue(id)))))
    case JjTree(id) => Success(TreeEntry(e.0, Some(Some(SubtreeValue(id)))))
    case JjGitSubmodule(_) => Failure
  }

  /** A valid path component: not empty, no '/'. */
  predicate ValidComponent(name: Bytes) {
    name != [] && PlainName(name)
  }

  function NormalCopyId(copyId: Bytes): Bytes {
    if |copyId| == OBJECT_ID_LENGTH then copyId else ROOT_COMMIT_ID
  }

  /** `tree_entry_from_proto` */
  function TreeEntryFromProto(e: TreeEntry): Result<JjTreeEntry> {
    if !ValidComponent(e.name) then Failure
    else
      match e.value
      case Some(Some(FileValue(id, executable, copyId))) =>
        Success((e.name, JjFile(id, executable, NormalCopyId(copyId))))
      case Some(Some(SymlinkValue(id))) => Success((e.name, JjSymlink(id)))
      case Some(Some(SubtreeValue(id))) => Success((e.name, JjTree(id)))
      case _ => Failure
  }

  function Normal(e: JjTreeEntry): JjTreeEntry {
    match e.1
    case JjFile(id, executable, copyId) => (e.0, JjFile(id, executable, NormalCopyId(copyId)))
    case _ => e
  }

  /** `write_tree`'s conversion of all entries: the first failure fails the whole. */
  function TreeToProto(es: seq<JjTreeEntry>): (r: Result<seq<TreeEntry>>)
    ensures r.Success? ==> |r.value| == |es|
  {
    if es == [] then Success([])
    else
      match (TreeEntryToProto(es[0]), TreeToProto(es[1..]))
      case (Success(p), Success(ps)) => Success([p] + ps)
      case _ => Failure
  }

  function TreeFromProto(ps: seq<TreeEntry>): (r: Result<seq<JjTreeEntry>>)
    ensures r.Success? ==> |r.value| == |ps|
  {
    if ps == [] then Success([])
    else
      match (TreeEntryFromProto(ps[0]), TreeFromProto(ps[1..]))
      case (Success(e), Success(es)) => Success([e] + es)
      case _ => Failure
  }

  /** `read_tree`'s loop over the entries received. */
  method ReadEntries(ps: seq<TreeEntry>) returns (r: Result<seq<JjTreeEntry>>)
    ensures r == TreeFromProto(ps)
  {
    var es: seq<JjTreeEntry> := [];
    assert ps[0..] == ps;
    PrependNone(TreeFromProto(ps));
    for i := 0 to |ps|
      invariant TreeFromProto(ps) == Prepend(es, TreeFromProto(ps[i..]))
    {
      assert ps[i..][1..] == ps[i + 1..];
      match TreeEntryFromProto(ps[i]) {
        case Success(e) =>
          PrependOne(es, e, TreeFromProto(ps[i + 1..]));
          es := es + [e];
        case Failure =>
          return Failure;
      }
    }
    assert ps[|ps|..] == [] && es + [] == es;
    r := Success(es);
  }

  function Prepend(es: seq<JjTreeEntry>, r: Result<seq<JjTreeEntry>>): Result<seq<JjTreeEntry>> {
    match r
    case Success(ds) => Success(es + ds)
    case Failure => Failure
  }

  lemma PrependNone(r: Result<seq<JjTreeEntry>>)
    ensures Prepend([], r) == r
  {
    if r.Success? { assert [] + r.value == r.value; }
  }

  lemma PrependOne(es: seq<JjTreeEntry>, e: JjTreeEntry, r: Result<seq<JjTreeEntry>>)
    ensures r.Success? ==> Prepend(es, Success([e] + r.value)) == Prepend(es + [e], r)
  {
    if r.Success? {
      assert es + ([e] + r.value) == (es + [e]) + r.value;
    }
  }

  function NormalTree(es: seq<JjTreeEntry>): (r: seq<JjTreeEntry>)
    ensures |r| == |es|
  {
    seq(|es|, i requires 0 <= i < |es| => Normal(es[i]))
  }

  predicate Supported(es: seq<JjTreeEntry>) {
    forall i :: 0 <= i < |es| ==> !es[i].1.JjGitSubmodule?
  }

  predicate ValidNames(es: seq<JjTreeEntry>) {
    forall i :: 0 <= i < |es| ==> ValidComponent(es[i].0)
  }

  lemma EntryRoundTrip(e: JjTreeEntry)
    requires !e.1.JjGitSubmodule? && ValidComponent(e.0)
    ensures TreeEntryToProto(e).Success? && TreeEntryToProto(Normal(e)).Success?
    ensures TreeEntryFromProto(TreeEntryToProto(e).value) == Success(Normal(e))
    ensures Hashed(TreeEntryToProto(Normal(e)).value) == Hashed(TreeEntryToProto(e).value)
  {
  }

  /** A tree can be written exactly when it has no submodule. */
  lemma {:induction false} TreeWritable(es: seq<JjTreeEntry>)
    ensures TreeToProto(es).Success? <==> Supported(es)
  {
    if es == [] {
    } else {
      TreeWritable(es[1..]);
      assert es == [es[0]] + es[1..];
    }
  }

  lemma TreeToProtoCons(es: seq<JjTreeEntry>)
    requires es != [] && TreeToProto(es).Success?
    ensures TreeEntryToProto(es[0]).Success? && TreeToProto(es[1..]).Success?
    ensures TreeToProto(es).value[0] == TreeEntryToProto(es[0]).value
    ensures TreeToProto(es).value[1..] == TreeToProto(es[1..]).value
  {
  }

  /** A written tree is read back with its copy ids normalised. */
  lemma {:induction false} TreeRoundTrip(es: seq<JjTreeEntry>)
    requires ValidNames(es) && TreeToProto(es).Success?
    ensures TreeFromProto(TreeToProto(es).value) == Success(NormalTree(es))
  {
    if es == [] {
      assert NormalTree(es) == [];
    } else {
      TreeWritable(es);
      TreeToProtoCons(es);
      TreeRoundTrip(es[1..]);
      EntryRoundTrip(es[0]);
      assert NormalTree(es) == [Normal(es[0])] + NormalTree(es[1..]);
    }
  }

  /** An entry of a message that the client accepts: a name without '/', not empty, and a value that
      is there and no conflict. */
  predicate Acceptable(p: TreeEntry) {
    && p.name != [] && 0x2f !in p.name
    && p.value.Some? && p.value.value.Some? && !p.value.value.value.ConflictValue?
  }

  /** What an entry becomes: a copy id that is not 20 bytes long becomes twenty zero bytes. */
  ghost predicate Becomes(p: TreeEntry, e: JjTreeEntry) {
    var zeros: Bytes := [0, 0, 0, 0, 0, 0, 0, 0, 0, 0, 0, 0, 0, 0, 0, 0, 0, 0, 0, 0];
    && Acceptable(p) && e.0 == p.name
    && match p.value.value.value
       case FileValue(id, executable, copyId) => e.1 == JjFile(id, executable, if |copyId| == 20 then copyId else zeros)
       case SymlinkValue(id) => e.1 == JjSymlink(id)
       case SubtreeValue(id) => e.1 == JjTree(id)
       case ConflictValue(_) => false
  }

  lemma EntryFromProtoExactly(p: TreeEntry)
    ensures TreeEntryFromProto(p).Success? <==> Acceptable(p)
    ensures Acceptable(p) ==> Becomes(p, TreeEntryFromProto(p).value)
  {
  }

  /** A tree reads exactly when every entry is acceptable, and then entry by entry in order. */
  lemma {:induction false} TreeFromProtoExactly(ps: seq<TreeEntry>)
    ensures TreeFromProto(ps).Success? <==> forall i :: 0 <= i < |ps| ==> Acceptable(ps[i])
    ensures TreeFromProto(ps).Success? ==> forall i :: 0 <= i < |ps| ==> Becomes(ps[i], TreeFromProto(ps).value[i])
  {
    if ps == [] {
    } else {
      EntryFromProtoExactly(ps[0]);
      TreeFromProtoExactly(ps[1..]);
      assert ps == [ps[0]] + ps[1..];
    }
  }

  /** Normalising copy ids does not change what is hashed. */
  lemma {:induction false} NormalTreeSameEntries(es: seq<JjTreeEntry>)
    requires ValidNames(es) && TreeToProto(es).Success?
    ensures TreeToProto(NormalTree(es)).Success?
    ensures GitEntries(TreeToProto(NormalTree(es)).value) == GitEntries(TreeToProto(es).value)
  {
    if es == [] {
    } else {
      var ns := NormalTree(es);
      TreeWritable(es);
      TreeWritable(ns);
      TreeToProtoCons(es);
      TreeToProtoCons(ns);
      EntryRoundTrip(es[0]);
      assert ns[1..] == NormalTree(es[1..]);
      NormalTreeSameEntries(es[1..]);
    }
  }

  /** Reading a tree and writing it back hashes the list of the first write, so the id is the same. */
  lemma TreeListStable(es: seq<JjTreeEntry>)
    requires ValidNames(es) && TreeToProto(es).Success?
    ensures TreeFromProto(TreeToProto(es).value).Success?
    ensures TreeToProto(TreeFromProto(TreeToProto(es).value).value).Success?
    ensures TreeList(TreeToProto(TreeFromProto(TreeToProto(es).value).value).value) == TreeList(TreeToProto(es).value)
  {
    TreeRoundTrip(es);
    NormalTreeSameEntries(es);
  }

  // ---------- The hashed list determines a client's tree ----------

  function ValueId(v: JjTreeValue): Bytes {
    v.id
  }

  /** A jj tree as clients hold it: valid names in ascending order, no submodules, full-length ids. */
  ghost predicate WellFormedTree(es: seq<JjTreeEntry>) {
    && Supported(es) && ValidNames(es)
    && (forall i :: 0 <= i < |es| ==> |ValueId(es[i].1)| == OBJECT_ID_LENGTH)
    && (forall i, j :: 0 <= i < j < |es| ==> es[i].0 != es[j].0 && LexLe(es[i].0, es[j].0))
  }

  /** Copy ids are not hashed. */
  function ForgetCopy(e: JjTreeEntry): JjTreeEntry {
    match e.1
    case JjFile(id, executable, _) => (e.0, JjFile(id, executable, []))
    case _ => e
  }

  predicate SameButCopies(es: seq<JjTreeEntry>, ds: seq<JjTreeEntry>) {
    |es| == |ds| && forall i :: 0 <= i < |es| ==> ForgetCopy(es[i]) == ForgetCopy(ds[i])
  }

  function KindOf(v: JjTreeValue): EntryKind {
    match v
    case JjFile(_, executable, _) => if executable then BlobExecutable else Blob
    case JjSymlink(_) => Link
    case JjTree(_) => Tree
    case JjGitSubmodule(_) => Blob
  }

  lemma HashedEntry(e: JjTreeEntry)
    requires !e.1.JjGitSubmodule? && |ValueId(e.1)| == OBJECT_ID_LENGTH
    ensures TreeEntryToProto(e).Success?
    ensures Hashed(TreeEntryToProto(e).value) == [GitEntry(KindOf(e.1), e.0, ValueId(e.1))]
  {
  }

  lemma {:induction false} NothingFiltered(es: seq<JjTreeEntry>)
    requires WellFormedTree(es)
    ensures TreeToProto(es).Success?
    ensures var gs := GitEntries(TreeToProto(es).value);
      |gs| == |es| && forall i :: 0 <= i < |es| ==> gs[i] == GitEntry(KindOf(es[i].1), es[i].0, ValueId(es[i].1))
  {
    TreeWritable(es);
    if es == [] {
    } else {
      TreeToProtoCons(es);
      HashedEntry(es[0]);
      NothingFiltered(es[1..]);
    }
  }

  function Filename(g: GitEntry): Bytes { g.filename }

  lemma AscendingNames(es: seq<JjTreeEntry>, gs: seq<GitEntry>)
    requires WellFormedTree(es) && |gs| == |es| && forall i :: 0 <= i < |es| ==> gs[i].filename == es[i].0
    ensures SortedOn(Filename, gs) && KeyInjectiveOn(Filename, gs)
  {
    forall x, y | x in gs && y in gs && Filename(x) == Filename(y) ensures x == y {
      var i :| 0 <= i < |gs| && gs[i] == x;
      var j :| 0 <= j < |gs| && gs[j] == y;
      assert es[i].0 == es[j].0;
    }
  }

  /** Two client trees hash the same list exactly when they are equal but for copy ids. */
  lemma TreeListDetermines(es: seq<JjTreeEntry>, ds: seq<JjTreeEntry>)
    requires WellFormedTree(es) && WellFormedTree(ds)
    ensures TreeToProto(es).Success? && TreeToProto(ds).Success?
    ensures TreeList(TreeToProto(es).value) == TreeList(TreeToProto(ds).value) <==> SameButCopies(es, ds)
  {
    NothingFiltered(es);
    NothingFiltered(ds);
    var gs, hs := GitEntries(TreeToProto(es).value), GitEntries(TreeToProto(ds).value);
    if SortOn(GitKey, gs) == SortOn(GitKey, hs) {
      AscendingNames(es, gs);
      AscendingNames(ds, hs);
      SortedUnique(Filename, gs, hs);
    }
    SameEntriesSameTree(es, ds, gs, hs);
  }

  lemma SameEntriesSameTree(es: seq<JjTreeEntry>, ds: seq<JjTreeEntry>, gs: seq<GitEntry>, hs: seq<GitEntry>)
    requires Supported(es) && Supported(ds) && |gs| == |es| && |hs| == |ds|
    requires forall i :: 0 <= i < |es| ==> gs[i] == GitEntry(KindOf(es[i].1), es[i].0, ValueId(es[i].1))
    requires forall i :: 0 <= i < |ds| ==> hs[i] == GitEntry(KindOf(ds[i].1), ds[i].0, ValueId(ds[i].1))
    ensures gs == hs <==> SameButCopies(es, ds)
  {
    if gs == hs {
      forall i | 0 <= i < |es| ensures ForgetCopy(es[i]) == ForgetCopy(ds[i]) { SameGitEntry(es[i], ds[i]); }
    }
    if SameButCopies(es, ds) {
      forall i | 0 <= i < |gs| ensures gs[i] == hs[i] {
        assert ForgetCopy(es[i]) == ForgetCopy(ds[i]);
      }
    }
  }

  lemma SameGitEntry(e: JjTreeEntry, d: JjTreeEntry)
    requires e.0 == d.0 && KindOf(e.1) == KindOf(d.1) && ValueId(e.1) == ValueId(d.1)
    requires !e.1.JjGitSubmodule? && !d.1.JjGitSubmodule?
    ensures ForgetCopy(e) == ForgetCopy(d)
  {
  }
}
