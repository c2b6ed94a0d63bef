/** The in-memory store: per-repository tables of content-addressed objects, and the op heads.
    Each method is one critical section of the source, so each is atomic. */
module MemoryStores {
  import opened ByteStrings
  import opened Wrappers
  import opened OpStoreProto
  import opened OpHeads
  import opened Trees

  type RepoId = Bytes
  type Table<V> = map<RepoId, map<Bytes, V>>

  datatype Timestamp = Timestamp(millis: i64, tzOffset: int)
  datatype Signature = Signature(name: Bytes, email: Bytes, timestamp: Option<Timestamp>)

  datatype Commit = Commit(
    commitId: Bytes,
    changeId: Bytes,
    parentCommitIds: seq<Bytes>,
    rootTreeId: seq<Bytes>,
    description: Bytes,
    author: Option<Signature>,
    committer: Option<Signature>,
    predecessors: seq<Bytes>,
    conflictLabels: seq<Bytes>,
    secureSig: Option<Bytes>)

  // ---------- The abstract state ----------

  datatype StoreState = StoreState(
    repos: set<RepoId>,
    commits: Table<Commit>,
    trees: Table<seq<TreeEntry>>,
    files: Table<Bytes>,
    ops: Table<Operation>,
    views: Table<View>,
    opHeads: map<RepoId, seq<Bytes>>)

  const EMPTY_STORE: StoreState := StoreState({}, map[], map[], map[], map[], map[], map[])

  function Get<V>(t: Table<V>, repo: RepoId, id: Bytes): Option<V> {
    if repo in t && id in t[repo] then Some(t[repo][id]) else None
  }

  function Slice<V>(t: Table<V>, repo: RepoId): map<Bytes, V> {
    if repo in t then t[repo] else map[]
  }

  /** `entry(repo).or_default().insert(id, v)` */
  function Put<V>(t: Table<V>, repo: RepoId, id: Bytes, v: V): Table<V> {
    t[repo := Slice(t, repo)[id := v]]
  }

  /** The heads that an update works on, and that a read reports: the root when none are recorded. */
  function CurrentHeads(s: StoreState, repo: RepoId): seq<Bytes> {
    if repo in s.opHeads then s.opHeads[repo] else DEFAULT_HEADS
  }

  function WithUpdatedHeads(s: StoreState, repo: RepoId, u: Update): StoreState {
    s.(opHeads := s.opHeads[repo := UpdatedHeads(CurrentHeads(s, repo), u)])
  }

  /** A put is seen by the read of its own slot and by no other read. */
  lemma GetAfterPut<V>(t: Table<V>, repo: RepoId, id: Bytes, v: V, repo': RepoId, id': Bytes)
    ensures Get(Put(t, repo, id, v), repo', id') == if repo' == repo && id' == id then Some(v) else Get(t, repo', id')
  {
  }

  // ---------- The class ----------

  /** `retain` with a closure that records whether it dropped anything. */
  method RetainNotIn(heads: seq<Bytes>, drop: seq<Bytes>) returns (kept: seq<Bytes>, removedAny: bool)
    ensures kept == Retain(heads, drop) && (removedAny <==> Meets(heads, drop))
    ensures !removedAny ==> kept == heads
  {
    removedAny := false;
    kept := [];
    for i := 0 to |heads|
      invariant kept == Retain(heads[..i], drop)
      invariant removedAny <==> Meets(heads[..i], drop)
    {
      RetainSnoc(heads[..i], heads[i], drop);
      assert heads[..i + 1] == heads[..i] + [heads[i]];
      if heads[i] in drop {
        removedAny := true;
      } else {
        kept := kept + [heads[i]];
      }
    }
    assert heads[..|heads|] == heads;
    RetainSpec(heads, drop);
  }

  class MemoryStore {
    var repos: set<RepoId>
    var commits: Table<Commit>
    var trees: Table<seq<TreeEntry>>
    var files: Table<Bytes>
    var ops: Table<Operation>
    var views: Table<View>
    var opHeads: map<RepoId, seq<Bytes>>

    function State(): StoreState
      reads this
    {
      StoreState(repos, commits, trees, files, ops, views, opHeads)
    }

    constructor ()
      ensures State() == EMPTY_STORE
    {
      repos, commits, trees, files, ops, views, opHeads := {}, map[], map[], map[], map[], map[], map[];
    }

    method IsRepoRegistered(repo: RepoId) returns (r: bool)
      ensures r <==> repo in State().repos
    {
      r := repo in repos;
    }

    method RegisterRepo(repo: RepoId)
      modifies this
      ensures State() == old(State()).(repos := old(repos) + {repo})
    {
      repos := repos + {repo};
    }

    method PutCommit(repo: RepoId, id: Bytes, commit: Commit)
      modifies this
      ensures State() == old(State()).(commits := Put(old(commits), repo, id, commit))
    {
      var m := if repo in commits then commits[repo] else map[];
      commits := commits[repo := m[id := commit]];
    }

    method PutTree(repo: RepoId, id: Bytes, entries: seq<TreeEntry>)
      modifies this
      ensures State() == old(State()).(trees := Put(old(trees), repo, id, entries))
    {
      var m := if repo in trees then trees[repo] else map[];
      trees := trees[repo := m[id := entries]];
    }

    method PutFile(repo: RepoId, id: Bytes, content: Bytes)
      modifies this
      ensures State() == old(State()).(files := Put(old(files), repo, id, content))
    {
      var m := if repo in files then files[repo] else map[];
      files := files[repo := m[id := content]];
    }

    method PutOperation(repo: RepoId, id: Bytes, op: Operation)
      modifies this
      ensures State() == old(State()).(ops := Put(old(ops), repo, id, op))
    {
      var m := if repo in ops then ops[repo] else map[];
      ops := ops[repo := m[id := op]];
    }

    method PutView(repo: RepoId, id: Bytes, view: View)
      modifies this
      ensures State() == old(State()).(views := Put(old(views), repo, id, view))
    {
      var m := if repo in views then views[repo] else map[];
      views := views[repo := m[id := view]];
    }

    method GetCommit(repo: RepoId, id: Bytes) returns (r: Option<Commit>)
      ensures r == Get(State().commits, repo, id)
    {
      r := if repo in commits && id in commits[repo] then Some(commits[repo][id]) else None;
    }

    method GetTree(repo: RepoId, id: Bytes) returns (r: Option<seq<TreeEntry>>)
      ensures r == Get(State().trees, repo, id)
    {
      r := if repo in trees && id in trees[repo] then Some(trees[repo][id]) else None;
    }

    method GetFile(repo: RepoId, id: Bytes) returns (r: Option<Bytes>)
      ensures r == Get(State().files, repo, id)
    {
      r := if repo in files && id in files[repo] then Some(files[repo][id]) else None;
    }

    method GetOperation(repo: RepoId, id: Bytes) returns (r: Option<Operation>)
      ensures r == Get(State().ops, repo, id)
    {
      r := if repo in ops && id in ops[repo] then Some(ops[repo][id]) else None;
    }

    method GetView(repo: RepoId, id: Bytes) returns (r: Option<View>)
      ensures r == Get(State().views, repo, id)
    {
      r := if repo in views && id in views[repo] then Some(views[repo][id]) else None;
    }

    method GetOpHeads(repo: RepoId) returns (r: Option<seq<Bytes>>)
      ensures r == if repo in State().opHeads then Some(State().opHeads[repo]) else None
    {
      r := if repo in opHeads then Some(opHeads[repo]) else None;
    }

    method UpdateOpHeads(repo: RepoId, oldIds: seq<Bytes>, newId: Bytes) returns (r: seq<Bytes>)
      modifies this
      ensures State() == WithUpdatedHeads(old(State()), repo, Update(oldIds, newId))
      ensures r == CurrentHeads(State(), repo)
    {
      if repo !in opHeads {
        opHeads := opHeads[repo := [ROOT_OPERATION_ID]];
      }
      var heads := opHeads[repo];
      ghost var current := CurrentHeads(old(State()), repo);
      assert heads == current;
      if oldIds == [] {
        if newId !in heads {
          heads := heads + [newId];
        }
      } else {
        var kept, removedAny := RetainNotIn(heads, oldIds);
        heads := kept;
        if removedAny && newId !in heads {
          heads := heads + [newId];
        }
      }
      assert heads == UpdatedHeads(current, Update(oldIds, newId));
      opHeads := opHeads[repo := heads];
      UpdateTwice(old(opHeads), repo, [ROOT_OPERATION_ID], heads);
      r := heads;
    }
  }

  lemma UpdateTwice<V>(m: map<RepoId, V>, repo: RepoId, v: V, w: V)
    ensures m[repo := v][repo := w] == m[repo := w]
  {
  }

  lemma {:induction false} RetainSnoc(heads: seq<Bytes>, h: Bytes, drop: seq<Bytes>)
    ensures Retain(heads + [h], drop) == Retain(heads, drop) + (if h in drop then [] else [h])
    ensures Meets(heads + [h], drop) <==> Meets(heads, drop) || h in drop
  {
    if heads == [] {
      assert heads + [h] == [h] && [h][1..] == [];
    } else {
      RetainSnoc(heads[1..], h, drop);
      assert (heads + [h])[0] == heads[0] && (heads + [h])[1..] == heads[1..] + [h];
    }
    MeetsSnoc(heads, h, drop);
  }

  lemma MeetsSnoc(heads: seq<Bytes>, h: Bytes, drop: seq<Bytes>)
    ensures Meets(heads + [h], drop) <==> Meets(heads, drop) || h in drop
  {
    if h in drop { assert h in heads + [h]; }
    if Meets(heads, drop) {
      var x :| x in heads && x in drop;
      assert x in heads + [h];
    }
  }
}
