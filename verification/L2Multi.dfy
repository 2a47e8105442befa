/** The topology-wide learning switch (pox/forwarding/l2_multi.py): an adjacency index
    fed by link events, an all-pairs distance table filled on demand, and the paths
    read from it. A switch object is identified with its datapath id. */
module L2Multi {
  import opened Graphs
  import opened Links
  import opened Options
  import opened PathTables

  datatype Hop = Hop(switch: Node, port: Port)

  function Ids(sws: seq<Node>): set<Node> {
    set s | s in sws
  }

  /** _check_path: every hop but the last leaves through the port the index holds. */
  predicate CheckPath(index: PortIndex, p: seq<Hop>) {
    forall m :: 0 <= m < |p| - 1 ==>
      (p[m].switch, p[m + 1].switch) in index && index[(p[m].switch, p[m + 1].switch)] == p[m].port
  }

  /** The switches of a path, and the hops of a walk. */
  function SwitchesOf(p: seq<Hop>): (s: seq<Node>)
    ensures |s| == |p| && forall m :: 0 <= m < |p| ==> s[m] == p[m].switch
  {
    seq(|p|, m requires 0 <= m < |p| => p[m].switch)
  }

  /** A path as it is installed: a shortest walk that visits no switch twice, leaving each
      switch through the port towards the next one and the last through lastPort. */
  ghost predicate GoodPath(index: PortIndex, p: seq<Hop>, src: Node, dst: Node, lastPort: Port) {
    && |p| > 0
    && WalkFromTo(index.Keys, SwitchesOf(p), src, dst)
    && IsDistance(index.Keys, src, dst, |p| - 1)
    && NoRepeats(SwitchesOf(p))
    && CheckPath(index, p)
    && p[|p| - 1].port == lastPort
  }

  /** The hop leaves through an end of a two-way link to that switch. */
  ghost predicate LeavesTowards(known: set<Link>, hop: Hop, next: Node) {
    exists l :: l in known && (l.dpid1, l.port1, l.dpid2) == (hop.switch, hop.port, next)
      && Link(l.dpid2, l.port2, l.dpid1, l.port1) in known
  }

  ghost predicate FollowsLinks(known: set<Link>, p: seq<Hop>) {
    forall m :: 0 <= m < |p| - 1 ==> LeavesTowards(known, p[m], p[m + 1].switch)
  }

  lemma IndexedHop(index: PortIndex, known: set<Link>, hop: Hop, next: Node)
    requires AgreesAt(index, known, hop.switch, next)
    requires (hop.switch, next) in index && index[(hop.switch, next)] == hop.port
    ensures LeavesTowards(known, hop, next)
  {
    var l := Link(hop.switch, hop.port, next, index[(next, hop.switch)]);
    assert l in known;
  }

  lemma PathFollowsLinks(index: PortIndex, known: set<Link>, p: seq<Hop>)
    requires Agrees(index, known) && CheckPath(index, p)
    ensures FollowsLinks(known, p)
  {
    forall m | 0 <= m < |p| - 1 ensures LeavesTowards(known, p[m], p[m + 1].switch) {
      assert AgreesAt(index, known, p[m].switch, p[m + 1].switch);
      IndexedHop(index, known, p[m], p[m + 1].switch);
    }
  }

  /** What one link event does to the index; known already reflects the event. */
  ghost predicate LinkAdded(index: PortIndex, index': PortIndex, known: set<Link>, l: Link) {
    index' ==
    if (l.dpid1, l.dpid2) !in index && Flip(l) in known
    then index[(l.dpid1, l.dpid2) := l.port1][(l.dpid2, l.dpid1) := l.port2]
    else index
  }

  ghost predicate LinkRemoved(index: PortIndex, index': PortIndex, known: set<Link>, l: Link) {
    var bare := index - {(l.dpid1, l.dpid2), (l.dpid2, l.dpid1)};
    if TwoWay(known, l.dpid1, l.dpid2)
    then exists r :: r in known && r.dpid1 == l.dpid1 && r.dpid2 == l.dpid2 && Flip(r) in known
                     && index' == bare[(l.dpid1, l.dpid2) := r.port1][(l.dpid2, l.dpid1) := r.port2]
    else index' == bare
  }

  lemma AddedKeepsAgreement(index: PortIndex, index': PortIndex, known: set<Link>, l: Link)
    requires NoSelfLinks(known + {l})
    requires Agrees(index, known) && LinkAdded(index, index', known + {l}, l)
    ensures Agrees(index', known + {l})
  {
    var now := known + {l};
    forall s1, s2 ensures AgreesAt(index', now, s1, s2) {
      assert AgreesAt(index, known, s1, s2);
      assert AgreesAt(index, known, l.dpid1, l.dpid2);
      assert Flip(Flip(l)) == l;
      if TwoWay(now, s1, s2) {
        var r :| r in now && r.dpid1 == s1 && r.dpid2 == s2 && Flip(r) in now;
        assert r == l || Flip(r) == l || (r in known && Flip(r) in known);
      }
      if (s1, s2) == (l.dpid1, l.dpid2) && (s1, s2) in index' {
        assert Flip(l) in now || TwoWay(known, s1, s2);
      }
      if (s2, s1) == (l.dpid1, l.dpid2) {
        assert AgreesAt(index, known, s2, s1);
        if TwoWay(known, s2, s1) { TwoWaySymmetric(known, s2, s1); }
        if TwoWay(known, s1, s2) { TwoWaySymmetric(known, s1, s2); }
      }
    }
  }

  lemma RemovedKeepsAgreement(index: PortIndex, index': PortIndex, known: set<Link>, l: Link)
    requires NoSelfLinks(known) && l in known
    requires Agrees(index, known) && LinkRemoved(index, index', known - {l}, l)
    ensures Agrees(index', known - {l})
  {
    var now := known - {l};
    forall s1, s2 ensures AgreesAt(index', now, s1, s2) {
      assert AgreesAt(index, known, s1, s2);
      if (s1, s2) == (l.dpid1, l.dpid2) {
      } else if (s2, s1) == (l.dpid1, l.dpid2) {
        if TwoWay(now, s2, s1) { TwoWaySymmetric(now, s2, s1); }
        if TwoWay(now, s1, s2) { TwoWaySymmetric(now, s1, s2); }
      } else {
        assert Flip(Flip(l)) == l;
        if TwoWay(known, s1, s2) {
          var r :| r in known && r.dpid1 == s1 && r.dpid2 == s2 && Flip(r) in known;
          assert r in now && Flip(r) in now;
        }
        if TwoWay(now, s1, s2) {
          var r :| r in now && r.dpid1 == s1 && r.dpid2 == s2 && Flip(r) in now;
          assert r in known && Flip(r) in known;
        }
      }
    }
  }

  /** Between two rounds of the outer loop: walks through processed switches are covered. */
  ghost predicate PhaseDone(t: PathTable, g: Graph, ids: set<Node>, done: set<Node>) {
    && Sound(t, g, ids) && Splits(t, g) && Diagonal(t, ids)
    && forall x, y {:trigger CoversVia(t, g, done, x, y)} :: x in ids && y in ids ==> CoversVia(t, g, done, x, y)
  }

  /** Inside the round of k: rows, and the first cols of row i, may pass through k as well. */
  ghost predicate MidPhase(t: PathTable, g: Graph, ids: set<Node>, done: set<Node>, k: Node,
                           rows: set<Node>, i: Node, cols: set<Node>) {
    && PhaseDone(t, g, ids, done)
    && (forall x, y {:trigger CoversVia(t, g, done + {k}, x, y)} ::
          x in rows && y in ids ==> CoversVia(t, g, done + {k}, x, y))
    && (forall y {:trigger CoversVia(t, g, done + {k}, i, y)} :: y in cols ==> CoversVia(t, g, done + {k}, i, y))
  }

  class L2Multi {
    var switches: seq<Node>
    var adjacency: PortIndex
    var pathMap: PathTable
    ghost var solvedFor: set<Node>  // the switches known when pathMap was last computed

    /** The cache is empty, or it was solved for switches that carry every link. */
    ghost predicate Valid()
      reads this
    {
      && NoRepeats(switches)
      && Within(adjacency.Keys, Ids(switches))
      && (pathMap == map[] ||
          (solvedFor <= Ids(switches) && Within(adjacency.Keys, solvedFor)
           && Solved(pathMap, adjacency.Keys, solvedFor)))
    }

    constructor ()
      ensures Valid() && switches == [] && adjacency == map[] && pathMap == map[]
    {
      switches, adjacency, pathMap, solvedFor := [], map[], map[], {};
    }

    /** _calc_paths */
    method CalcPaths()
      requires NoRepeats(switches) && Within(adjacency.Keys, Ids(switches))
      modifies this`pathMap, this`solvedFor
      ensures Solved(pathMap, adjacency.Keys, Ids(switches))
      ensures solvedFor == Ids(switches)
      ensures switches != [] ==> pathMap != map[]
    {
      ghost var g, ids := adjacency.Keys, Ids(switches);
      InitialTable();
      var n := |switches|;
      assert Ids(switches[..0]) == {} && Ids(switches[..n]) == ids;
      for c := 0 to n
        invariant PhaseDone(pathMap, g, ids, Ids(switches[..c]))
      {
        PassThrough(c);
      }
      SoundAndCompleteIsSolved(pathMap, g, ids);
      solvedFor := ids;
      if switches != [] {
        var s := switches[0];
        assert s in ids;
        assert (s, s) in pathMap;
      }
    }

    /** One round of the outer loop: every pair may now also go through switch number c. */
    method PassThrough(c: nat)
      requires c < |switches|
      requires PhaseDone(pathMap, adjacency.Keys, Ids(switches), Ids(switches[..c]))
      modifies this`pathMap
      ensures PhaseDone(pathMap, adjacency.Keys, Ids(switches), Ids(switches[..c + 1]))
    {
      ghost var g, ids, done := adjacency.Keys, Ids(switches), Ids(switches[..c]);
      var n := |switches|;
      var k := switches[c];
      for a := 0 to n
        invariant MidPhase(pathMap, g, ids, done, k, Ids(switches[..a]), k, {})
      {
        PassRow(k, switches[a], done, Ids(switches[..a]));
        IdsExtend(switches, a);
      }
      IdsExtend(switches, c);
      assert Ids(switches[..n]) == ids;
    }

    /** The middle loop for one start i. */
    method PassRow(k: Node, i: Node, ghost done: set<Node>, ghost rows: set<Node>)
      requires k in switches && i in switches
      requires MidPhase(pathMap, adjacency.Keys, Ids(switches), done, k, rows, k, {})
      modifies this`pathMap
      ensures MidPhase(pathMap, adjacency.Keys, Ids(switches), done, k, rows + {i}, k, {})
    {
      ghost var g, ids := adjacency.Keys, Ids(switches);
      for b := 0 to |switches|
        invariant MidPhase(pathMap, g, ids, done, k, rows, i, Ids(switches[..b]))
      {
        ghost var before := pathMap;
        RelaxAt(i, switches[b], k);
        RelaxStep(before, pathMap, g, ids, done, k, rows, i, switches, b);
      }
      assert switches[..|switches|] == switches;
    }

    /** The body of the innermost loop. */
    method RelaxAt(i: Node, j: Node, k: Node)
      modifies this`pathMap
      ensures pathMap == Relax(old(pathMap), i, j, k)
    {
      if (i, k) in pathMap {
        if (k, j) in pathMap {
          var ikj := pathMap[(i, k)].dist + pathMap[(k, j)].dist;
          if (i, j) !in pathMap || ikj < pathMap[(i, j)].dist {
            pathMap := pathMap[(i, j) := Entry(ikj, Some(k))];
          }
        }
      }
    }

    /** The first loops of _calc_paths: a link is one hop, a switch is at distance zero. */
    method InitialTable()
      requires Within(adjacency.Keys, Ids(switches))
      modifies this`pathMap
      ensures Sound(pathMap, adjacency.Keys, Ids(switches))
      ensures Splits(pathMap, adjacency.Keys) && Diagonal(pathMap, Ids(switches))
      ensures forall i, j :: i in Ids(switches) && j in Ids(switches) ==>
                CoversVia(pathMap, adjacency.Keys, {}, i, j)
    {
      pathMap := map[];
      for a := 0 to |switches|
        invariant forall e :: e in pathMap <==> e.0 in switches[..a] && (e.0 == e.1 || e in adjacency)
        invariant OneHop(pathMap)
      {
        InitialRow(switches[a]);
      }
      InitialTableIsSound(pathMap, adjacency.Keys, Ids(switches));
    }

    /** The links and the zero of one switch. */
    method InitialRow(k: Node)
      requires OneHop(pathMap)
      modifies this`pathMap
      ensures OneHop(pathMap)
      ensures forall e :: e in pathMap <==> e in old(pathMap) || (e.0 == k && (e.1 == k || e in adjacency))
    {
      var row := set e | e in adjacency.Keys && e.0 == k;
      ghost var whole, before := row, pathMap;
      while row != {}
        invariant row <= whole
        invariant forall e :: e in pathMap <==> e in before || (e in whole && e !in row)
        invariant forall e :: e in pathMap && e != (k, k) ==> pathMap[e] == Entry(if e.0 == e.1 then 0 else 1, None)
      {
        var e :| e in row;
        pathMap := pathMap[e := Entry(1, None)];
        row := row - {e};
      }
      pathMap := pathMap[(k, k) := Entry(0, None)];
    }

    /** _get_path, filling the table first when it is empty. None means unreachable. */
    method GetPath(src: Node, dst: Node, lastPort: Port) returns (r: Option<seq<Hop>>)
      requires Valid() && src in switches && dst in switches
      modifies this`pathMap, this`solvedFor
      ensures Valid()
      ensures r.None? <==> !Joined(adjacency.Keys, src, dst)
      ensures r.Some? ==> GoodPath(adjacency, r.value, src, dst, lastPort)
    {
      var path;
      ghost var g := adjacency.Keys;
      if src == dst {
        path := [src];
        JoinedToItself(g, src);
      } else {
        if |pathMap| == 0 {
          CalcPaths();
        }
        CachedDistance(pathMap, g, solvedFor, src, dst);
        SolvedIsHalving(pathMap, g, solvedFor);
        var raw := RawPath(pathMap, src, dst);
        if raw.None? {
          return None;
        }
        RawPathIsShortest(pathMap, g, solvedFor, src, dst);
        EntryMeansJoined(pathMap, g, solvedFor, src, dst);
        path := [src] + raw.value + [dst];
      }
      assert WalkFromTo(g, path, src, dst);
      assert IsDistance(g, src, dst, |path| - 1);
      ShortestHasNoRepeats(g, path, src, dst);
      var hops := AddPorts(path, lastPort);
      return Some(hops);
    }

    /** The second half of _get_path, with its assertion: a port for every link of the path. */
    method AddPorts(path: seq<Node>, lastPort: Port) returns (hops: seq<Hop>)
      requires IsWalk(adjacency.Keys, path)
      ensures SwitchesOf(hops) == path && CheckPath(adjacency, hops)
      ensures |hops| == |path| && hops[|hops| - 1].port == lastPort
    {
      hops := [];
      for m := 0 to |path| - 1
        invariant |hops| == m
        invariant forall x :: 0 <= x < m ==>
          hops[x].switch == path[x] && (path[x], path[x + 1]) in adjacency
          && hops[x].port == adjacency[(path[x], path[x + 1])]
      {
        assert (path[m], path[m + 1]) in adjacency.Keys;
        hops := hops + [Hop(path[m], adjacency[(path[m], path[m + 1])])];
      }
      hops := hops + [Hop(path[|path| - 1], lastPort)];
      assert CheckPath(adjacency, hops);
    }

    /** l2_multi._handle_LinkEvent; known is discovery's adjacency after the event. */
    method HandleLinkEvent(known: set<Link>, l: Link, removed: bool)
      requires Valid() && l.dpid1 in switches && l.dpid2 in switches && l.dpid1 != l.dpid2
      requires forall r :: r in known ==> r.dpid1 in switches && r.dpid2 in switches
      modifies this`adjacency, this`pathMap
      ensures Valid() && pathMap == map[]
      ensures if removed then LinkRemoved(old(adjacency), adjacency, known, l)
              else LinkAdded(old(adjacency), adjacency, known, l)
    {
      pathMap := map[];
      var there, back := (l.dpid1, l.dpid2), (l.dpid2, l.dpid1);
      if removed {
        adjacency := adjacency - {there};
        adjacency := adjacency - {back};
        assert adjacency == old(adjacency) - {there, back};
        ghost var bare := adjacency;
        var rest := known;
        while rest != {}
          invariant rest <= known && adjacency == bare
          invariant forall r :: r in known && r !in rest ==>
            !(r.dpid1 == l.dpid1 && r.dpid2 == l.dpid2 && Flip(r) in known)
        {
          var r :| r in rest;
          if r.dpid1 == l.dpid1 && r.dpid2 == l.dpid2 && Flip(r) in known {
            adjacency := adjacency[there := r.port1];
            adjacency := adjacency[back := r.port2];
            assert TwoWay(known, l.dpid1, l.dpid2);
            break;
          }
          rest := rest - {r};
        }
      } else if there !in adjacency && Flip(l) in known {
        adjacency := adjacency[there := l.port1];
        adjacency := adjacency[back := l.port2];
      }
    }

    /** l2_multi._handle_ConnectionUp: a new switch is added, the cache is kept. */
    method HandleConnectionUp(dpid: Node)
      requires Valid()
      modifies this`switches
      ensures Valid() && Ids(switches) == Ids(old(switches)) + {dpid}
    {
      if dpid !in switches {
        switches := switches + [dpid];
      }
      assert Ids(old(switches)) <= Ids(switches);
    }
  }

  lemma IdsExtend(sws: seq<Node>, a: nat)
    requires a < |sws|
    ensures Ids(sws[..a + 1]) == Ids(sws[..a]) + {sws[a]}
  {
  }

  lemma RelaxStep(t: PathTable, t': PathTable, g: Graph, ids: set<Node>, done: set<Node>, k: Node,
                  rows: set<Node>, i: Node, sws: seq<Node>, b: nat)
    requires b < |sws| && ids == Ids(sws) && i in ids && k in ids
    requires MidPhase(t, g, ids, done, k, rows, i, Ids(sws[..b]))
    requires t' == Relax(t, i, sws[b], k)
    ensures MidPhase(t', g, ids, done, k, rows, i, Ids(sws[..b + 1]))
  {
    var j := sws[b];
    RelaxKeepsSound(t, g, ids, i, j, k);
    RelaxKeepsSplits(t, g, ids, i, j, k);
    forall x, y | x in ids && y in ids ensures CoversVia(t', g, done, x, y) {
      RelaxKeepsCovers(t, g, done, i, j, k, x, y);
    }
    forall x, y | x in rows && y in ids ensures CoversVia(t', g, done + {k}, x, y) {
      RelaxKeepsCovers(t, g, done + {k}, i, j, k, x, y);
    }
    IdsExtend(sws, b);
    forall y | y in Ids(sws[..b + 1]) ensures CoversVia(t', g, done + {k}, i, y) {
      if y in Ids(sws[..b]) {
        RelaxKeepsCovers(t, g, done + {k}, i, j, k, i, y);
      } else {
        RelaxCovers(t, g, done, i, j, k);
      }
    }
  }

  lemma FirstInnerNode(p: seq<Node>, s: set<Node>)
    requires InnerIn(p, s)
    ensures |p| > 2 ==> p[1] in s
  {
  }

  /** All entries are direct: a link, or a switch and itself. */
  ghost predicate OneHop(t: PathTable) {
    forall e :: e in t ==> t[e] == Entry(if e.0 == e.1 then 0 else 1, None)
  }

  lemma InitialTableIsSound(t: PathTable, g: Graph, ids: set<Node>)
    requires Within(g, ids)
    requires forall e :: e in t <==> e.0 in ids && (e.0 == e.1 || e in g)
    requires OneHop(t)
    ensures Sound(t, g, ids) && Splits(t, g) && Diagonal(t, ids)
    ensures forall i, j {:trigger CoversVia(t, g, {}, i, j)} :: i in ids && j in ids ==> CoversVia(t, g, {}, i, j)
  {
    forall i, j ensures SoundAt(t, g, ids, i, j) {
      assert (i, j).0 == i && (i, j).1 == j;
      var p := if i == j then [i] else [i, j];
      assert (i, j) in t ==> WalkFromTo(g, p, i, j) && |p| == t[(i, j)].dist + 1;
    }
    forall i, j ensures SplitsAt(t, g, i, j) {
      assert (i, j).0 == i && (i, j).1 == j;
    }
    forall k | k in ids ensures (k, k) in t && t[(k, k)].dist == 0 {
      var e := (k, k);
      assert e.0 == e.1 && e.0 in ids;
    }
    forall i, j | i in ids && j in ids ensures CoversVia(t, g, {}, i, j) {
      var e := (i, j);
      forall p | WalkFromTo(g, p, i, j) && InnerIn(p, {}) ensures e in t && t[e].dist + 1 <= |p| {
        FirstInnerNode(p, {});
        assert |p| == 2 ==> (p[0], p[1]) in g;
        assert e.0 == i && e.1 == j;
      }
    }
  }

  /** Whatever switches the cached table was solved for, its answer for a pair of
      distinct switches is the true one. */
  lemma CachedDistance(t: PathTable, g: Graph, known: set<Node>, i: Node, j: Node)
    requires Within(g, known) && Solved(t, g, known) && i != j
    ensures (i, j) in t <==> Joined(g, i, j)
    ensures (i, j) in t ==> IsDistance(g, i, j, t[(i, j)].dist)
  {
    if Joined(g, i, j) {
      JoinedStaysWithin(g, known, i, j);
      assert ExactAt(t, g, i, j);
    }
    if (i, j) in t {
      EntryMeansJoined(t, g, known, i, j);
    }
  }
}
