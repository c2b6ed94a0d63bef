/** The operation graph: which operations are proper ancestors of which, by paths of parent edges. */
module OpDag {
  import opened ByteStrings

  type OpId = Bytes
  type Dag = map<OpId, seq<OpId>>   // operation -> parents

  predicate IsParent(g: Dag, a: OpId, b: OpId) {
    b in g && a in g[b]
  }

  /** A path from an ancestor down to a descendant. */
  ghost predicate IsPath(g: Dag, p: seq<OpId>) {
    |p| >= 1 && forall i :: 0 <= i < |p| - 1 ==> IsParent(g, p[i], p[i + 1])
  }

  ghost predicate ConnectedBy(g: Dag, a: OpId, b: OpId, p: seq<OpId>) {
    IsPath(g, p) && p[0] == a && p[|p| - 1] == b
  }

  ghost predicate ProperAncestor(g: Dag, a: OpId, b: OpId) {
    exists p :: |p| >= 2 && ConnectedBy(g, a, b, p)
  }

  ghost predicate AncestorOrEqual(g: Dag, a: OpId, b: OpId) {
    a == b || ProperAncestor(g, a, b)
  }

  ghost predicate Acyclic(g: Dag) {
    forall a :: !ProperAncestor(g, a, a)
  }

  lemma ParentIsAncestor(g: Dag, a: OpId, b: OpId)
    requires IsParent(g, a, b)
    ensures ProperAncestor(g, a, b)
  {
    assert ConnectedBy(g, a, b, [a, b]);
  }

  lemma AncestorTransitive(g: Dag, a: OpId, b: OpId, c: OpId)
    requires AncestorOrEqual(g, a, b) && AncestorOrEqual(g, b, c)
    ensures AncestorOrEqual(g, a, c)
    ensures ProperAncestor(g, a, b) || ProperAncestor(g, b, c) ==> ProperAncestor(g, a, c)
  {
    if ProperAncestor(g, a, b) && ProperAncestor(g, b, c) {
      var p :| |p| >= 2 && ConnectedBy(g, a, b, p);
      var q :| |q| >= 2 && ConnectedBy(g, b, c, q);
      var r := p + q[1..];
      forall i | 0 <= i < |r| - 1 ensures IsParent(g, r[i], r[i + 1]) {
        if i >= |p| - 1 {
          var j := i - (|p| - 1);
          assert r[i] == q[j] && r[i + 1] == q[j + 1];
        }
      }
      assert ConnectedBy(g, a, c, r);
    }
  }

  /** Parents of smaller rank make a graph acyclic. */
  lemma AcyclicByRank(g: Dag, rank: OpId -> nat)
    requires forall a, b :: IsParent(g, a, b) ==> rank(a) < rank(b)
    ensures Acyclic(g)
  {
    forall a ensures !ProperAncestor(g, a, a) {
      if ProperAncestor(g, a, a) {
        var p :| |p| >= 2 && ConnectedBy(g, a, a, p);
        RankAlongPath(g, rank, p);
      }
    }
  }

  lemma {:induction false} RankAlongPath(g: Dag, rank: OpId -> nat, p: seq<OpId>)
    requires forall a, b :: IsParent(g, a, b) ==> rank(a) < rank(b)
    requires IsPath(g, p) && |p| >= 2
    ensures rank(p[0]) < rank(p[|p| - 1])
  {
    var n := |p| - 1;
    assert IsParent(g, p[n - 1], p[n]);
    if n == 1 {
      assert p[0] == p[n - 1];
    } else {
      RankAlongPath(g, rank, p[..n]);
    }
  }

  /** An ancestor is reached through one of the parents. */
  lemma AncestorThroughParent(g: Dag, a: OpId, b: OpId) returns (p: OpId)
    requires ProperAncestor(g, a, b)
    ensures IsParent(g, p, b) && AncestorOrEqual(g, a, p)
  {
    var path :| |path| >= 2 && ConnectedBy(g, a, b, path);
    var n := |path| - 1;
    p := path[n - 1];
    assert IsParent(g, path[n - 1], path[n]);
    if n >= 2 {
      assert ConnectedBy(g, a, p, path[..n]);
    }
  }
}
