/** Directed graphs over switch ids, the walks in them, and their distances.
    Shared by the path computation and the spanning tree. */
module Graphs {
  type Node = int
  type Graph = set<(Node, Node)>

  predicate IsWalk(g: Graph, p: seq<Node>) {
    |p| > 0 && forall a, b :: 0 <= a && b == a + 1 < |p| ==> (p[a], p[b]) in g
  }

  /** p is a walk of |p| - 1 links from u to v. */
  predicate WalkFromTo(g: Graph, p: seq<Node>, u: Node, v: Node) {
    IsWalk(g, p) && p[0] == u && p[|p| - 1] == v
  }

  ghost predicate Joined(g: Graph, u: Node, v: Node) {
    exists p :: WalkFromTo(g, p, u, v)
  }

  /** d is the least number of links on a walk from u to v. */
  ghost predicate IsDistance(g: Graph, u: Node, v: Node, d: nat) {
    && (exists p :: WalkFromTo(g, p, u, v) && |p| == d + 1)
    && (forall p :: WalkFromTo(g, p, u, v) ==> d + 1 <= |p|)
  }

  predicate NoRepeats<T(==)>(p: seq<T>) {
    forall a, b :: 0 <= a < b < |p| ==> p[a] != p[b]
  }

  /** Every node strictly inside p belongs to s. */
  predicate InnerIn(p: seq<Node>, s: set<Node>) {
    forall m :: 0 < m < |p| - 1 ==> p[m] in s
  }

  lemma JoinWalks(g: Graph, p: seq<Node>, q: seq<Node>, u: Node, v: Node, w: Node)
    requires WalkFromTo(g, p, u, v) && WalkFromTo(g, q, v, w)
    ensures WalkFromTo(g, p + q[1..], u, w)
  {
  }

  lemma JoinedTransitive(g: Graph, u: Node, v: Node, w: Node)
    requires Joined(g, u, v) && Joined(g, v, w)
    ensures Joined(g, u, w)
  {
    var p :| WalkFromTo(g, p, u, v);
    var q :| WalkFromTo(g, q, v, w);
    JoinWalks(g, p, q, u, v, w);
  }

  lemma JoinedByLink(g: Graph, u: Node, v: Node)
    requires (u, v) in g
    ensures Joined(g, u, v)
  {
    assert WalkFromTo(g, [u, v], u, v);
  }

  lemma JoinedToItself(g: Graph, u: Node)
    ensures Joined(g, u, u)
  {
    assert WalkFromTo(g, [u], u, u);
  }

  lemma SubWalk(g: Graph, p: seq<Node>, a: nat, b: nat)
    requires IsWalk(g, p) && a <= b < |p|
    ensures WalkFromTo(g, p[a..b + 1], p[a], p[b])
  {
  }

  lemma JoinedInLargerGraph(g: Graph, h: Graph, u: Node, v: Node)
    requires g <= h && Joined(g, u, v)
    ensures Joined(h, u, v)
  {
    var p :| WalkFromTo(g, p, u, v);
    assert WalkFromTo(h, p, u, v);
  }

  /** In a symmetric graph a walk can be taken backwards. */
  lemma {:induction false} JoinedBackwards(g: Graph, p: seq<Node>, u: Node, v: Node)
    requires forall e :: e in g ==> (e.1, e.0) in g
    requires WalkFromTo(g, p, u, v)
    ensures Joined(g, v, u)
    decreases |p|
  {
    if |p| == 1 {
      JoinedToItself(g, u);
    } else {
      var n := |p| - 1;
      SubWalk(g, p, 0, n - 1);
      JoinedBackwards(g, p[0..n], u, p[n - 1]);
      assert (p[n - 1], p[n - 1 + 1]) in g;
      JoinedByLink(g, v, p[n - 1]);
      JoinedTransitive(g, v, p[n - 1], u);
    }
  }

  /** Cutting the loop between two visits of the same node leaves a shorter walk. */
  lemma CutLoop(g: Graph, p: seq<Node>, u: Node, v: Node, a: nat, b: nat)
    requires WalkFromTo(g, p, u, v) && a < b < |p| && p[a] == p[b]
    ensures exists q :: WalkFromTo(g, q, u, v) && |q| < |p|
  {
    SubWalk(g, p, 0, a);
    SubWalk(g, p, b, |p| - 1);
    JoinWalks(g, p[0..a + 1], p[b..|p| - 1 + 1], u, p[a], v);
    var q := p[0..a + 1] + p[b..|p| - 1 + 1][1..];
    assert WalkFromTo(g, q, u, v) && |q| < |p|;
  }

  /** A walk of least length visits no node twice. */
  lemma ShortestHasNoRepeats(g: Graph, p: seq<Node>, u: Node, v: Node)
    requires WalkFromTo(g, p, u, v) && IsDistance(g, u, v, |p| - 1)
    ensures NoRepeats(p)
  {
    forall a, b | 0 <= a < b < |p| ensures p[a] != p[b] {
      if p[a] == p[b] {
        CutLoop(g, p, u, v, a, b);
      }
    }
  }
}
