/** The spanning tree over discovered links (pox/openflow/spanning_tree.py): links are
    culled to one two-way link per pair of switches, then a forest is grown with a queue
    to whose front every freshly reached switch is prepended. */
module SpanningTrees {
  import opened Graphs
  import opened Links
  import opened Sequences

  // ---------------------------------------------------------------- culling

  /** A cell of adj: first the list of links between two switches, later one port. */
  datatype Cell = Candidates(links: seq<Link>) | Chosen(port: Port)
  type Cells = map<(Node, Node), Cell>

  /** Every pair of switches that some link joins has a cell listing exactly those links. */
  ghost predicate ListsAt(adj: Cells, known: set<Link>, s1: Node, s2: Node) {
    && ((s1, s2) in adj <==> exists l :: l in known && l.dpid1 == s1 && l.dpid2 == s2)
    && ((s1, s2) in adj ==>
          && adj[(s1, s2)].Candidates?
          && forall l :: l in adj[(s1, s2)].links <==> l in known && l.dpid1 == s1 && l.dpid2 == s2)
  }

  ghost predicate Lists(adj: Cells, known: set<Link>) {
    forall s1, s2 {:trigger ListsAt(adj, known, s1, s2)} :: ListsAt(adj, known, s1, s2)
  }

  /** Both cells of a pair are final: the two ends of one two-way link, or absent when
      there is no such link. */
  ghost predicate SettledAt(adj: Cells, known: set<Link>, s1: Node, s2: Node) {
    if TwoWay(known, s1, s2)
    then && (s1, s2) in adj && adj[(s1, s2)].Chosen? && (s2, s1) in adj && adj[(s2, s1)].Chosen?
         && Link(s1, adj[(s1, s2)].port, s2, adj[(s2, s1)].port) in known
         && Link(s2, adj[(s2, s1)].port, s1, adj[(s1, s2)].port) in known
    else (s1, s2) !in adj && (s2, s1) !in adj
  }

  /** While culling, a pair is either untouched in both directions or settled. */
  ghost predicate CullingAt(adj: Cells, lists: Cells, known: set<Link>, s1: Node, s2: Node) {
    || SettledAt(adj, known, s1, s2)
    || (SameCell(adj, lists, s1, s2) && SameCell(adj, lists, s2, s1))
  }

  ghost predicate SameCell(adj: Cells, lists: Cells, s1: Node, s2: Node) {
    if (s1, s2) in lists then (s1, s2) in adj && adj[(s1, s2)] == lists[(s1, s2)] else (s1, s2) !in adj
  }

  /** A pair the loops have passed is settled, or was never there in this direction. */
  ghost predicate PassedAt(adj: Cells, lists: Cells, known: set<Link>, s1: Node, s2: Node) {
    SettledAt(adj, known, s1, s2) || (s1, s2) !in lists
  }

  ghost predicate Culling(adj: Cells, lists: Cells, known: set<Link>) {
    forall x, y {:trigger CullingAt(adj, lists, known, x, y)} :: CullingAt(adj, lists, known, x, y)
  }

  /** Grouping the links by the switches they join. */
  method GroupLinks(known: set<Link>) returns (adj: Cells, switches: set<Node>)
    ensures Lists(adj, known)
    ensures forall s :: s in switches <==> exists l :: l in known && (l.dpid1 == s || l.dpid2 == s)
  {
    adj, switches := map[], {};
    var rest := known;
    ghost var seen: set<Link> := {};
    while rest != {}
      invariant rest <= known && seen == known - rest
      invariant Lists(adj, seen)
      invariant forall s :: s in switches <==> exists l :: l in seen && (l.dpid1 == s || l.dpid2 == s)
    {
      var l :| l in rest;
      var pair := (l.dpid1, l.dpid2);
      ghost var before := adj;
      adj := adj[pair := Candidates((if pair in adj && adj[pair].Candidates? then adj[pair].links else []) + [l])];
      switches := switches + {l.dpid1, l.dpid2};
      rest := rest - {l};
      GroupOne(before, adj, seen, l);
      seen := seen + {l};
    }
    assert seen == known;
  }

  lemma GroupOne(adj: Cells, adj': Cells, seen: set<Link>, l: Link)
    requires Lists(adj, seen)
    requires var pair := (l.dpid1, l.dpid2);
      adj' == adj[pair := Candidates((if pair in adj && adj[pair].Candidates? then adj[pair].links else []) + [l])]
    ensures Lists(adj', seen + {l})
  {
    forall s1, s2 ensures ListsAt(adj', seen + {l}, s1, s2) {
      assert ListsAt(adj, seen, s1, s2);
      if (s1, s2) == (l.dpid1, l.dpid2) {
        assert l in seen + {l};
      } else if exists r :: r in seen + {l} && r.dpid1 == s1 && r.dpid2 == s2 {
        var r :| r in seen + {l} && r.dpid1 == s1 && r.dpid2 == s2;
        assert r in seen;
      } else {
        assert forall r :: r in seen ==> r in seen + {l};
      }
    }
  }

  /** The body of the culling loops for one ordered pair. */
  method CullPair(adj: Cells, ghost lists: Cells, known: set<Link>, s1: Node, s2: Node) returns (r: Cells)
    requires NoSelfLinks(known) && Lists(lists, known) && Culling(adj, lists, known)
    ensures Culling(r, lists, known) && PassedAt(r, lists, known, s1, s2)
    ensures forall x, y :: PassedAt(adj, lists, known, x, y) ==> PassedAt(r, lists, known, x, y)
  {
    var there, back := (s1, s2), (s2, s1);
    assert CullingAt(adj, lists, known, s1, s2) && ListsAt(lists, known, s1, s2);
    if there !in adj { return adj; }
    if adj[there].Chosen? { return adj; }
    assert SameCell(adj, lists, s1, s2) && SameCell(adj, lists, s2, s1);
    var links := adj[there].links;
    for m := 0 to |links|
      invariant forall x :: 0 <= x < m ==> Flip(links[x]) !in known
    {
      var l := links[m];
      assert l in links;
      if Flip(l) in known {
        r := adj[there := Chosen(l.port1)][back := Chosen(l.port2)];
        assert TwoWay(known, s1, s2);
        assert Link(s1, l.port1, s2, l.port2) == l;
        SettleOne(adj, r, lists, known, s1, s2);
        return;
      }
    }
    r := adj - {there};
    if back in r {
      r := r - {back};
    }
    assert !TwoWay(known, s1, s2);
    SettleOne(adj, r, lists, known, s1, s2);
  }

  lemma SettleOne(adj: Cells, r: Cells, lists: Cells, known: set<Link>, s1: Node, s2: Node)
    requires Culling(adj, lists, known) && SettledAt(r, known, s1, s2)
    requires r - {(s1, s2), (s2, s1)} == adj - {(s1, s2), (s2, s1)}
    ensures Culling(r, lists, known)
    ensures forall x, y :: PassedAt(adj, lists, known, x, y) ==> PassedAt(r, lists, known, x, y)
  {
    if TwoWay(known, s1, s2) { TwoWaySymmetric(known, s1, s2); }
    if TwoWay(known, s2, s1) { TwoWaySymmetric(known, s2, s1); }
    assert SettledAt(r, known, s2, s1);
    forall x, y | (x, y) != (s1, s2) && (x, y) != (s2, s1)
      ensures (x, y) in r <==> (x, y) in adj
      ensures (x, y) in r ==> r[(x, y)] == adj[(x, y)]
    {
      assert (x, y) in r <==> (x, y) in r - {(s1, s2), (s2, s1)};
      assert (x, y) in adj <==> (x, y) in adj - {(s1, s2), (s2, s1)};
      if (x, y) in r {
        assert r[(x, y)] == (r - {(s1, s2), (s2, s1)})[(x, y)];
        assert adj[(x, y)] == (adj - {(s1, s2), (s2, s1)})[(x, y)];
      }
    }
    forall x, y ensures CullingAt(r, lists, known, x, y) {
      assert CullingAt(adj, lists, known, x, y);
    }
  }

  /** Culling leaves one port per pair; the result agrees with the known links. */
  method CullLinks(known: set<Link>) returns (index: PortIndex, switches: set<Node>)
    requires NoSelfLinks(known)
    ensures Agrees(index, known)
    ensures forall s :: s in switches <==> exists l :: l in known && (l.dpid1 == s || l.dpid2 == s)
  {
    var adj;
    adj, switches := GroupLinks(known);
    ghost var lists := adj;
    var order := Sorted(switches);
    forall x, y ensures CullingAt(adj, lists, known, x, y) {
      assert SameCell(adj, lists, x, y) && SameCell(adj, lists, y, x) by {
        assert ListsAt(lists, known, x, y) && ListsAt(lists, known, y, x);
      }
    }
    for a := 0 to |order|
      invariant Culling(adj, lists, known)
      invariant forall x, y {:trigger PassedAt(adj, lists, known, x, y)} ::
        x in order[..a] && y in order ==> PassedAt(adj, lists, known, x, y)
    {
      for b := 0 to |order|
        invariant Culling(adj, lists, known)
        invariant forall x, y {:trigger PassedAt(adj, lists, known, x, y)} ::
          x in order[..a] && y in order ==> PassedAt(adj, lists, known, x, y)
        invariant forall y {:trigger PassedAt(adj, lists, known, order[a], y)} ::
          y in order[..b] ==> PassedAt(adj, lists, known, order[a], y)
      {
        adj := CullPair(adj, lists, known, order[a], order[b]);
      }
    }
    CulledEverywhere(adj, lists, known, switches);
    index := map e | e in adj && adj[e].Chosen? :: adj[e].port;
    forall s1, s2 ensures AgreesAt(index, known, s1, s2) {
      assert SettledAt(adj, known, s1, s2);
      if TwoWay(known, s2, s1) { TwoWaySymmetric(known, s2, s1); }
    }
  }

  lemma CulledEverywhere(adj: Cells, lists: Cells, known: set<Link>, switches: set<Node>)
    requires Lists(lists, known) && Culling(adj, lists, known)
    requires forall s :: s in switches <==> exists l :: l in known && (l.dpid1 == s || l.dpid2 == s)
    requires forall x, y {:trigger PassedAt(adj, lists, known, x, y)} ::
      x in switches && y in switches ==> PassedAt(adj, lists, known, x, y)
    ensures forall x, y {:trigger SettledAt(adj, known, x, y)} :: SettledAt(adj, known, x, y)
  {
    forall x, y ensures SettledAt(adj, known, x, y) {
      assert CullingAt(adj, lists, known, x, y);
      assert ListsAt(lists, known, x, y) && ListsAt(lists, known, y, x);
      if TwoWay(known, x, y) { TwoWaySymmetric(known, x, y); }
      if TwoWay(known, y, x) { TwoWaySymmetric(known, y, x); }
      if (x, y) in lists {
        assert x in switches && y in switches && PassedAt(adj, lists, known, x, y);
      } else if (y, x) in lists {
        assert x in switches && y in switches && PassedAt(adj, lists, known, y, x);
      }
    }
  }

  // ---------------------------------------------------------------- sorted(list(s))

  method Sorted(s: set<Node>) returns (r: seq<Node>)
    ensures |r| == |s| && (forall x :: x in r <==> x in s)
    ensures forall a, b :: 0 <= a < b < |r| ==> r[a] < r[b]
  {
    r := [];
    var rest := s;
    while rest != {}
      invariant rest <= s && |r| + |rest| == |s|
      invariant forall x :: x in r <==> x in s && x !in rest
      invariant forall a, b :: 0 <= a < b < |r| ==> r[a] < r[b]
      invariant forall x, y :: x in r && y in rest ==> x < y
    {
      var m := Least(rest);
      assert forall a :: 0 <= a < |r| ==> r[a] in r;
      r := r + [m];
      rest := rest - {m};
    }
  }

  method Least(s: set<Node>) returns (m: Node)
    requires s != {}
    ensures m in s && forall x :: x in s ==> m <= x
  {
    ghost var member := Member(s);
    m :| m in s;
    var rest := s - {m};
    while rest != {}
      invariant rest <= s && m in s
      invariant forall x :: x in s && x !in rest ==> m <= x
    {
      ghost var member := Member(rest);
      var x :| x in rest;
      if x < m { m := x; }
      rest := rest - {x};
    }
  }

  // ---------------------------------------------------------------- growing

  /** tree[v] is the set of (neighbour, port towards it). */
  type Tree = map<Node, set<(Node, Port)>>

  ghost function TreeEdges(tree: Tree): Graph {
    set v, e | v in tree && e in tree[v] :: (v, e.0)
  }

  predicate Symmetric(g: Graph) {
    forall e :: e in g ==> (e.1, e.0) in g
  }

  /** A closed walk of at least three links that visits no switch twice. */
  ghost predicate IsCycle(g: Graph, p: seq<Node>) {
    |p| >= 3 && NoRepeats(p) && IsWalk(g, p) && (p[|p| - 1], p[0]) in g
  }

  ghost predicate Acyclic(g: Graph) {
    forall p :: !IsCycle(g, p)
  }

  ghost predicate Touches(g: Graph, v: Node) {
    exists w :: (v, w) in g
  }

  /** The directed pairs of switches joined by a two-way link. */
  ghost function TwoWayPairs(known: set<Link>): Graph {
    set l | l in known && Flip(l) in known :: (l.dpid1, l.dpid2)
  }

  /** The switch after v on a cycle through v. */
  function Next(p: seq<Node>, m: nat): Node
    requires m < |p|
  {
    p[if m + 1 < |p| then m + 1 else 0]
  }

  function Previous(p: seq<Node>, m: nat): Node
    requires m < |p|
  {
    p[if m > 0 then m - 1 else |p| - 1]
  }

  lemma CycleSteps(g: Graph, p: seq<Node>, m: nat)
    requires IsCycle(g, p) && m < |p|
    ensures (p[m], Next(p, m)) in g && (Previous(p, m), p[m]) in g && Next(p, m) != Previous(p, m)
  {
  }

  /** A switch with one edge lies on no cycle. */
  lemma CycleAvoidsLeaf(g: Graph, v: Node, w: Node, p: seq<Node>)
    requires Symmetric(g) && !Touches(g, w) && v != w
    requires IsCycle(g + {(v, w), (w, v)}, p)
    ensures IsCycle(g, p)
  {
    var h := g + {(v, w), (w, v)};
    forall m | 0 <= m < |p| ensures p[m] != w {
      CycleSteps(h, p, m);
      var next, previous := Next(p, m), Previous(p, m);
      assert (previous, w) in g ==> (w, previous) in g;
      assert (w, next) !in g && (w, previous) !in g;
    }
  }

  /** Hanging a fresh switch on the tree by one edge closes no cycle. */
  lemma HangingKeepsAcyclic(g: Graph, v: Node, w: Node)
    requires Symmetric(g) && Acyclic(g) && !Touches(g, w) && v != w
    ensures Acyclic(g + {(v, w), (w, v)})
  {
    forall p ensures !IsCycle(g + {(v, w), (w, v)}, p) {
      if IsCycle(g + {(v, w), (w, v)}, p) {
        CycleAvoidsLeaf(g, v, w, p);
      }
    }
  }

  /** The tree holds exactly the given edges, each with the port the index gives. */
  ghost predicate Holds(tree: Tree, edges: Graph, index: PortIndex) {
    && (forall v :: v in tree <==> Touches(edges, v))
    && (forall v, e :: v in tree ==>
          (e in tree[v] <==> (v, e.0) in edges && (v, e.0) in index && e.1 == index[(v, e.0)]))
  }

  /** tree[v].add(x), on a defaultdict. */
  function Add(tree: Tree, v: Node, x: (Node, Port)): Tree {
    tree[v := (if v in tree then tree[v] else {}) + {x}]
  }

  lemma HangInTree(tree: Tree, edges: Graph, index: PortIndex, v: Node, w: Node)
    requires Holds(tree, edges, index) && (v, w) in index && (w, v) in index && v != w
    ensures Holds(Add(Add(tree, v, (w, index[(v, w)])), w, (v, index[(w, v)])), edges + {(v, w), (w, v)}, index)
  {
  }

  /** The state of the work list between two steps. The stack is what was reached and not
      yet handled; everything reached but not done is on it and joined to the current root,
      and every neighbour of a done switch is joined to that switch. */
  ghost predicate Grown(edges: Graph, done: set<Node>, stack: set<Node>, root: Node, g: Graph) {
    && Symmetric(edges) && edges <= g && Acyclic(edges)
    && (forall v, w :: v in done && (v, w) in g ==> Joined(edges, v, w))
    && (forall v :: Touches(edges, v) && v !in done ==> v in stack)
    && (forall v :: v in stack ==> Joined(edges, root, v))
  }

  lemma JoinedBack(g: Graph, u: Node, v: Node)
    requires Symmetric(g) && Joined(g, u, v)
    ensures Joined(g, v, u)
  {
    var p :| WalkFromTo(g, p, u, v);
    JoinedBackwards(g, p, u, v);
  }

  /** A neighbour w of v that the tree already reached is joined to v: either w is done, or
      it is on the stack like v and both hang from the current root. */
  lemma ReachedNeighbour(edges: Graph, done: set<Node>, stack: set<Node>, root: Node, g: Graph, v: Node, w: Node)
    requires Symmetric(g) && (v, w) in g && Touches(edges, w)
    requires Symmetric(edges) && Joined(edges, root, v)
    requires forall x, y :: x in done && (x, y) in g && x != v ==> Joined(edges, x, y)
    requires forall x :: Touches(edges, x) && x !in done ==> x in stack
    requires forall x :: x in stack ==> Joined(edges, root, x)
    requires v != w
    ensures Joined(edges, v, w)
  {
    if w in done {
      assert (w, v) in g;
      JoinedBack(edges, w, v);
    } else {
      JoinedBack(edges, root, v);
      JoinedTransitive(edges, v, root, w);
    }
  }

  /** The state while the neighbours of v, which is being handled, are visited: rest are
      those still to come. */
  ghost predicate Visiting(edges: Graph, done: set<Node>, stack: set<Node>, root: Node, g: Graph, v: Node,
                           rest: set<Node>)
  {
    && v in done && v !in rest
    && Symmetric(edges) && edges <= g && Acyclic(edges)
    && (forall x, y :: x in done && (x, y) in g && (x != v || y !in rest) ==> Joined(edges, x, y))
    && (forall x :: Touches(edges, x) && x !in done ==> x in stack)
    && (forall x :: x in stack ==> Joined(edges, root, x))
    && Joined(edges, root, v)
  }

  lemma VisitReached(edges: Graph, done: set<Node>, stack: set<Node>, root: Node, g: Graph, v: Node,
                     rest: set<Node>, w: Node)
    requires Visiting(edges, done, stack, root, g, v, rest)
    requires Symmetric(g) && w in rest && (v, w) in g && Touches(edges, w)
    ensures Visiting(edges, done, stack, root, g, v, rest - {w})
  {
    ReachedNeighbour(edges, done, stack, root, g, v, w);
  }

  lemma VisitFresh(edges: Graph, done: set<Node>, stack: set<Node>, root: Node, g: Graph, v: Node,
                   rest: set<Node>, w: Node)
    requires Visiting(edges, done, stack, root, g, v, rest)
    requires Symmetric(g) && w in rest && (v, w) in g && !Touches(edges, w)
    ensures Visiting(edges + {(v, w), (w, v)}, done, stack + {w}, root, g, v, rest - {w})
  {
    var edges' := edges + {(v, w), (w, v)};
    HangingKeepsAcyclic(edges, v, w);
    forall x, y | Joined(edges, x, y) ensures Joined(edges', x, y) {
      JoinedInLargerGraph(edges, edges', x, y);
    }
    JoinedByLink(edges', v, w);
    JoinedTransitive(edges', root, v, w);
    forall x | Touches(edges', x) && x !in done ensures x in stack + {w} {
      var y :| (x, y) in edges';
      assert (x, y) in edges ==> Touches(edges, x);
    }
  }

  /** Taking v from the work list. With an empty stack v becomes the next root. */
  lemma StartVisit(edges: Graph, done: set<Node>, stack: set<Node>, root: Node, g: Graph, v: Node)
    requires Grown(edges, done, stack, root, g) && v !in done
    requires NoLoops(g)
    requires v in stack || (stack == {} && root == v)
    ensures Visiting(edges, done + {v}, stack, root, g, v, Neighbours(g, v))
  {
    if v !in stack { JoinedToItself(edges, v); }
  }

  predicate NoLoops(g: Graph) {
    forall e :: e in g ==> e.0 != e.1
  }

  function Neighbours(g: Graph, v: Node): set<Node> {
    set e | e in g && e.0 == v :: e.1
  }

  /** When the work list is empty the forest spans: two switches are joined in it exactly
      when they are joined at all. */
  lemma {:induction false} GrownSpans(edges: Graph, done: set<Node>, g: Graph, p: seq<Node>, u: Node, v: Node)
    requires forall x, y :: x in done && (x, y) in g ==> Joined(edges, x, y)
    requires forall e :: e in g ==> e.0 in done
    requires WalkFromTo(g, p, u, v)
    ensures Joined(edges, u, v)
    decreases |p|
  {
    if |p| == 1 {
      JoinedToItself(edges, u);
    } else {
      var n := |p| - 1;
      SubWalk(g, p, 0, n - 1);
      GrownSpans(edges, done, g, p[0..n], u, p[n - 1]);
      assert (p[n - 1], p[n]) in g;
      JoinedTransitive(edges, u, p[n - 1], v);
    }
  }

  /** A spanning forest of the graph, with the ports the index gives. */
  ghost predicate SpanningForest(tree: Tree, index: PortIndex) {
    && Symmetric(TreeEdges(tree)) && Acyclic(TreeEdges(tree))
    && (forall v, e :: v in tree && e in tree[v] ==> (v, e.0) in index && e.1 == index[(v, e.0)])
    && (forall u, v :: Joined(TreeEdges(tree), u, v) <==> Joined(index.Keys, u, v))
  }

  /** Visiting the neighbours of v: each one not yet in the tree is hung on v and queued. */
  method VisitNeighbours(index: PortIndex, tree: Tree, v: Node, ghost edges: Graph, ghost done: set<Node>,
                         ghost stack: set<Node>, ghost root: Node)
    returns (tree': Tree, more: set<Node>, ghost edges': Graph)
    requires Symmetric(index.Keys) && NoLoops(index.Keys)
    requires Holds(tree, edges, index)
    requires Visiting(edges, done, stack, root, index.Keys, v, Neighbours(index.Keys, v))
    ensures Holds(tree', edges', index)
    ensures Visiting(edges', done, stack + more, root, index.Keys, v, {})
    ensures more <= Neighbours(index.Keys, v)
  {
    tree', more, edges' := tree, {}, edges;
    var rest := Neighbours(index.Keys, v);
    while rest != {}
      invariant rest <= Neighbours(index.Keys, v) && more <= Neighbours(index.Keys, v)
      invariant Holds(tree', edges', index)
      invariant Visiting(edges', done, stack + more, root, index.Keys, v, rest)
    {
      ghost var member := Member(rest);
      var w :| w in rest;
      assert (v, w) in index && (w, v) in index;
      if w in tree' {
        VisitReached(edges', done, stack + more, root, index.Keys, v, rest, w);
      } else {
        VisitFresh(edges', done, stack + more, root, index.Keys, v, rest, w);
        HangInTree(tree', edges', index, v, w);
        assert stack + more + {w} == stack + (more + {w});
        more := more + {w};
        tree' := Add(tree', v, (w, index[(v, w)]));
        tree' := Add(tree', w, (v, index[(w, v)]));
        edges' := edges' + {(v, w), (w, v)};
      }
      rest := rest - {w};
    }
  }

  function Members(p: seq<Node>): set<Node> {
    set x | x in p
  }

  /** The queue is a stack of reached switches followed by the roots not yet tried, so a
      root's component is finished before the next root is taken. */
  ghost predicate Work(q: seq<Node>, depth: nat, edges: Graph, done: set<Node>, root: Node, index: PortIndex,
                       switches: set<Node>)
  {
    && depth <= |q| && done <= switches && Members(q) <= switches
    && Grown(edges, done, Members(q[..depth]), root, index.Keys)
    && switches <= done + Members(q[depth..])
  }

  /** The same before the freshly reached switches have been put in front. */
  ghost predicate Pending(q: seq<Node>, depth: nat, more: set<Node>, edges: Graph, done: set<Node>, root: Node,
                          index: PortIndex, switches: set<Node>) {
    && depth <= |q| && done <= switches && Members(q) + more <= switches
    && Grown(edges, done, more + Members(q[..depth]), root, index.Keys)
    && switches <= done + Members(q[depth..])
  }

  lemma Prepend(q: seq<Node>, depth: nat, more: set<Node>, front: seq<Node>, edges: Graph, done: set<Node>, root: Node,
                index: PortIndex, switches: set<Node>)
    requires Pending(q, depth, more, edges, done, root, index, switches)
    requires Members(front) == more
    ensures Work(front + q, depth + |front|, edges, done, root, index, switches)
  {
    assert (front + q)[..depth + |front|] == front + q[..depth];
    assert (front + q)[depth + |front|..] == q[depth..];
    MembersOfConcat(front, q[..depth]);
    MembersOfConcat(front, q);
  }

  lemma SameMembers(p: seq<Node>, s: set<Node>)
    requires forall x :: x in p <==> x in s
    ensures Members(p) == s
  {
    assert forall x :: x in s ==> x in Members(p);
    assert forall x :: x in Members(p) ==> x in s;
  }

  lemma MembersOfConcat(p: seq<Node>, q: seq<Node>)
    ensures Members(p + q) == Members(p) + Members(q)
  {
  }

  /** v has just been popped from the queue: with an empty stack it is a root and becomes
      the current one. q and depth describe what is left. */
  ghost predicate Popped(v: Node, q: seq<Node>, depth: nat, stack: set<Node>, edges: Graph, done: set<Node>, root: Node,
                         index: PortIndex, switches: set<Node>) {
    && depth <= |q| && done <= switches && Members(q) <= switches && v in switches
    && Grown(edges, done, stack, root, index.Keys)
    && (v in stack || (stack == {} && root == v))
    && Members(q[..depth]) + {v} == stack + {v}
    && switches <= done + {v} + Members(q[depth..])
  }

  lemma Pop(q: seq<Node>, depth: nat, edges: Graph, done: set<Node>, root: Node, index: PortIndex, switches: set<Node>)
    returns (root': Node, depth': nat)
    requires Work(q, depth, edges, done, root, index, switches) && |q| > 0
    ensures Popped(q[0], q[1..], depth', Members(q[..depth]), edges, done, root', index, switches)
  {
    var v := q[0];
    root', depth' := root, if depth == 0 then 0 else depth - 1;
    MembersOfConcat([v], q[1..]);
    assert q == [v] + q[1..];
    if depth == 0 {
      root' := v;
      assert q[0..] == [v] + q[1..];
    } else {
      assert q[..depth] == [v] + q[1..][..depth - 1];
      MembersOfConcat([v], q[1..][..depth - 1]);
      assert q[1..][depth - 1..] == q[depth..];
    }
  }

  /** A switch that is already done is dropped. */
  lemma PopDone(v: Node, q: seq<Node>, depth: nat, stack: set<Node>, edges: Graph, done: set<Node>, root: Node,
                index: PortIndex, switches: set<Node>)
    requires Popped(v, q, depth, stack, edges, done, root, index, switches) && v in done
    ensures Pending(q, depth, {}, edges, done, root, index, switches)
  {
    if stack == {} { JoinedToItself(edges, v); }
    assert {} + Members(q[..depth]) == Members(q[..depth]);
  }

  /** A switch that was handled leaves what it reached in more. */
  lemma PopHandled(v: Node, q: seq<Node>, depth: nat, stack: set<Node>, edges: Graph, done: set<Node>, root: Node,
                   index: PortIndex, switches: set<Node>, edges': Graph, more: set<Node>)
    requires Popped(v, q, depth, stack, edges, done, root, index, switches)
    requires Visiting(edges', done + {v}, stack + more, root, index.Keys, v, {}) && more <= switches
    ensures Pending(q, depth, more, edges', done + {v}, root, index, switches)
  {
  }

  lemma ForestIsComplete(tree: Tree, edges: Graph, done: set<Node>, root: Node, index: PortIndex, switches: set<Node>)
    requires Holds(tree, edges, index) && Work([], 0, edges, done, root, index, switches)
    requires forall e :: e in index ==> e.0 in switches
    ensures SpanningForest(tree, index)
  {
    assert Members([]) == {};
    assert TreeEdges(tree) == edges by {
      forall e | e in edges ensures e in TreeEdges(tree) {
        var v, w := e.0, e.1;
        assert (v, w) == e;
        assert Touches(edges, v);
        assert (e.1, index[e]) in tree[e.0];
      }
    }
    forall u, v ensures Joined(edges, u, v) <==> Joined(index.Keys, u, v) {
      if Joined(edges, u, v) { JoinedInLargerGraph(edges, index.Keys, u, v); }
      if Joined(index.Keys, u, v) {
        var p :| WalkFromTo(index.Keys, p, u, v);
        GrownSpans(edges, done, index.Keys, p, u, v);
      }
    }
  }

  /** The tree-building loop. */
  method GrowForest(index: PortIndex, switches: set<Node>) returns (tree: Tree)
    requires Symmetric(index.Keys) && NoLoops(index.Keys)
    requires forall e :: e in index ==> e.0 in switches
    ensures SpanningForest(tree, index)
  {
    var q: seq<Node>, more, done := [], switches, {};
    tree := map[];
    ghost var edges: Graph, root, depth: nat, starting := {}, 0, 0, true;
    while true
      invariant Holds(tree, edges, index)
      invariant starting ==> q == [] && more == switches && done == {} && edges == {} && depth == 0
      invariant !starting ==> Pending(q, depth, more, edges, done, root, index, switches)
      decreases switches - done, |q| + |more|
    {
      var front := Sorted(more);
      SameMembers(front, more);
      if starting {
        FirstRoots(front, root, index, switches);
        assert front + q == front;
      } else {
        Prepend(q, depth, more, front, edges, done, root, index, switches);
        depth := depth + |front|;
      }
      q := front + q;
      more := {};
      starting := false;
      if |q| == 0 { break; }
      var v := q[0];
      ghost var stack := Members(q[..depth]);
      root, depth := Pop(q, depth, edges, done, root, index, switches);
      q := q[1..];
      if v in done {
        PopDone(v, q, depth, stack, edges, done, root, index, switches);
        continue;
      }
      ghost var edges0, done0 := edges, done;
      done := done + {v};
      StartVisit(edges, done0, stack, root, index.Keys, v);
      tree, more, edges := VisitNeighbours(index, tree, v, edges, done, stack, root);
      PopHandled(v, q, depth, stack, edges0, done0, root, index, switches, edges, more);
    }
    assert q == [];
    ForestIsComplete(tree, edges, done, root, index, switches);
  }

  /** The tree edge from v through port to w has its other end in the tree, and the two ends
      are those of one link known in both directions. */
  ghost predicate TwoEnded(tree: Tree, known: set<Link>, v: Node, w: Node, port: Port) {
    && w in tree
    && exists e :: e in tree[w] && e.0 == v && Link(v, port, w, e.1) in known && Link(w, e.1, v, port) in known
  }

  /** _calc_spanning_tree. Every tree edge has the two ends of one known two-way link as its
      ports, there is no cycle, and two switches are joined in the tree exactly when a chain
      of two-way links joins them. */
  method CalcSpanningTree(known: set<Link>) returns (tree: Tree)
    requires NoSelfLinks(known)
    ensures Acyclic(TreeEdges(tree))
    ensures forall v, e :: v in tree && e in tree[v] ==> TwoEnded(tree, known, v, e.0, e.1)
    ensures forall v, e, e' :: v in tree && e in tree[v] && e' in tree[v] && e.0 == e'.0 ==> e == e'
    ensures forall u, v :: Joined(TreeEdges(tree), u, v) <==> Joined(TwoWayPairs(known), u, v)
  {
    var index, switches := CullLinks(known);
    IndexOfLinks(index, known, switches);
    tree := GrowForest(index, switches);
    ForestPorts(tree, index, known);
  }

  lemma IndexOfLinks(index: PortIndex, known: set<Link>, switches: set<Node>)
    requires NoSelfLinks(known) && Agrees(index, known)
    requires forall s :: s in switches <==> exists l :: l in known && (l.dpid1 == s || l.dpid2 == s)
    ensures Symmetric(index.Keys) && NoLoops(index.Keys)
    ensures forall e :: e in index ==> e.0 in switches
    ensures index.Keys == TwoWayPairs(known)
  {
    forall e | e in index
      ensures (e.1, e.0) in index && e.0 != e.1 && e.0 in switches && e in TwoWayPairs(known)
    {
      assert AgreesAt(index, known, e.0, e.1);
      var l :| l in known && l.dpid1 == e.0 && l.dpid2 == e.1 && Flip(l) in known;
    }
    forall e | e in TwoWayPairs(known) ensures e in index {
      var l :| l in known && Flip(l) in known && e == (l.dpid1, l.dpid2);
      assert AgreesAt(index, known, e.0, e.1) && TwoWay(known, e.0, e.1);
    }
  }

  lemma ForestPorts(tree: Tree, index: PortIndex, known: set<Link>)
    requires Agrees(index, known) && SpanningForest(tree, index)
    ensures forall v, e :: v in tree && e in tree[v] ==> TwoEnded(tree, known, v, e.0, e.1)
  {
    forall v, e | v in tree && e in tree[v]
      ensures TwoEnded(tree, known, v, e.0, e.1)
    {
      var w := e.0;
      assert AgreesAt(index, known, v, w);
      assert (v, w) in TreeEdges(tree);
      assert (w, v) in TreeEdges(tree);
      var e' :| e' in tree[w] && e'.0 == v;
      assert e' == (v, index[(w, v)]);
    }
  }

  lemma FirstRoots(front: seq<Node>, root: Node, index: PortIndex, switches: set<Node>)
    requires Members(front) == switches
    ensures Work(front, 0, {}, {}, root, index, switches)
  {
  }
}
