/** What the distance table of the learning switch must contain, and how paths are
    read back from it (pox/forwarding/l2_multi.py). The table maps a pair of switches
    to a distance and an optional intermediate switch; a pair that is absent stands
    for the default (None, None). */
module PathTables {
  import opened Graphs
  import opened Options

  /** (distance, intermediate) */
  datatype Entry = Entry(dist: nat, mid: Option<Node>)
  type PathTable = map<(Node, Node), Entry>

  predicate Within(g: Graph, sws: set<Node>) {
    forall e :: e in g ==> e.0 in sws && e.1 in sws
  }

  /** Every stored distance is the length of some walk. */
  ghost predicate SoundAt(t: PathTable, g: Graph, sws: set<Node>, i: Node, j: Node) {
    (i, j) in t ==>
      i in sws && j in sws && exists p :: WalkFromTo(g, p, i, j) && |p| == t[(i, j)].dist + 1
  }

  ghost predicate Sound(t: PathTable, g: Graph, sws: set<Node>) {
    forall i, j {:trigger SoundAt(t, g, sws, i, j)} :: SoundAt(t, g, sws, i, j)
  }

  /** The entry for (i, j) is no longer than any walk whose inner nodes were all processed. */
  ghost predicate CoversVia(t: PathTable, g: Graph, done: set<Node>, i: Node, j: Node) {
    forall p :: WalkFromTo(g, p, i, j) && InnerIn(p, done) ==>
      (i, j) in t && t[(i, j)].dist + 1 <= |p|
  }

  /** A direct entry is a link or the diagonal; an indirect one splits at a third switch,
      and its two halves are stored and together no longer than it. */
  ghost predicate SplitsAt(t: PathTable, g: Graph, i: Node, j: Node) {
    (i, j) in t ==>
      match t[(i, j)].mid
      case None => if i == j then t[(i, j)].dist == 0 else t[(i, j)].dist == 1 && (i, j) in g
      case Some(k) =>
        && i != k && k != j
        && (i, k) in t && (k, j) in t
        && t[(i, k)].dist + t[(k, j)].dist <= t[(i, j)].dist
  }

  ghost predicate Splits(t: PathTable, g: Graph) {
    forall i, j {:trigger SplitsAt(t, g, i, j)} :: SplitsAt(t, g, i, j)
  }

  ghost predicate Diagonal(t: PathTable, sws: set<Node>) {
    forall k :: k in sws ==> (k, k) in t && t[(k, k)].dist == 0
  }

  /** The entry for (i, j) is their distance, and it is absent exactly when j is unreachable. */
  ghost predicate ExactAt(t: PathTable, g: Graph, i: Node, j: Node) {
    if (i, j) in t then IsDistance(g, i, j, t[(i, j)].dist) else !Joined(g, i, j)
  }

  /** The table is exactly the distance function of the graph over the given switches. */
  ghost predicate Solved(t: PathTable, g: Graph, sws: set<Node>) {
    && Splits(t, g) && Diagonal(t, sws)
    && (forall e :: e in t ==> e.0 in sws && e.1 in sws)
    && (forall i, j {:trigger ExactAt(t, g, i, j)} :: i in sws && j in sws ==> ExactAt(t, g, i, j))
  }

  /** Taking the shorter of the stored walk and the one through k. */
  predicate Improves(t: PathTable, i: Node, j: Node, k: Node) {
    && (i, k) in t && (k, j) in t
    && ((i, j) !in t || t[(i, k)].dist + t[(k, j)].dist < t[(i, j)].dist)
  }

  function Relax(t: PathTable, i: Node, j: Node, k: Node): PathTable {
    if Improves(t, i, j, k)
    then t[(i, j) := Entry(t[(i, k)].dist + t[(k, j)].dist, Some(k))]
    else t
  }

  lemma RelaxKeepsSound(t: PathTable, g: Graph, sws: set<Node>, i: Node, j: Node, k: Node)
    requires Sound(t, g, sws) && {i, j, k} <= sws
    ensures Sound(Relax(t, i, j, k), g, sws)
  {
    forall x, y ensures SoundAt(Relax(t, i, j, k), g, sws, x, y) {
      assert SoundAt(t, g, sws, x, y);
      if Improves(t, i, j, k) && (x, y) == (i, j) {
        assert SoundAt(t, g, sws, i, k) && SoundAt(t, g, sws, k, j);
        var p :| WalkFromTo(g, p, i, k) && |p| == t[(i, k)].dist + 1;
        var q :| WalkFromTo(g, q, k, j) && |q| == t[(k, j)].dist + 1;
        JoinWalks(g, p, q, i, k, j);
        assert WalkFromTo(g, p + q[1..], i, j) && |p + q[1..]| == Relax(t, i, j, k)[(i, j)].dist + 1;
      }
    }
  }

  lemma RelaxKeepsSplits(t: PathTable, g: Graph, sws: set<Node>, i: Node, j: Node, k: Node)
    requires Splits(t, g) && Diagonal(t, sws) && {i, j, k} <= sws
    ensures Splits(Relax(t, i, j, k), g) && Diagonal(Relax(t, i, j, k), sws)
  {
    forall x, y ensures SplitsAt(Relax(t, i, j, k), g, x, y) {
      assert SplitsAt(t, g, x, y);
    }
  }

  /** The heart of the algorithm: a walk through processed nodes and k is cut at its
      first and last visit of k. */
  lemma RelaxCovers(t: PathTable, g: Graph, done: set<Node>, i: Node, j: Node, k: Node)
    requires CoversVia(t, g, done, i, k) && CoversVia(t, g, done, k, j) && CoversVia(t, g, done, i, j)
    ensures CoversVia(Relax(t, i, j, k), g, done + {k}, i, j)
  {
    var t' := Relax(t, i, j, k);
    forall p | WalkFromTo(g, p, i, j) && InnerIn(p, done + {k})
      ensures (i, j) in t' && t'[(i, j)].dist + 1 <= |p|
    {
      if exists m :: 0 < m < |p| - 1 && p[m] == k {
        var a := FirstVisit(p, k);
        var b := LastVisit(p, k);
        SubWalk(g, p, 0, a);
        SubWalk(g, p, b, |p| - 1);
        var head, tail := p[0..a + 1], p[b..|p| - 1 + 1];
        assert InnerIn(head, done);
        assert InnerIn(tail, done);
      } else {
        assert InnerIn(p, done);
      }
    }
  }

  lemma FirstVisit(p: seq<Node>, k: Node) returns (a: nat)
    requires exists m :: 0 < m < |p| - 1 && p[m] == k
    ensures 0 < a < |p| - 1 && p[a] == k
    ensures forall m :: 0 < m < a ==> p[m] != k
    ensures forall m :: 0 < m < |p| - 1 && p[m] == k ==> a <= m
  {
    a := 1;
    while p[a] != k
      invariant 0 < a < |p| - 1
      invariant forall m :: 0 < m < a ==> p[m] != k
      decreases |p| - a
    {
      a := a + 1;
    }
  }

  lemma LastVisit(p: seq<Node>, k: Node) returns (b: nat)
    requires exists m :: 0 < m < |p| - 1 && p[m] == k
    ensures 0 < b < |p| - 1 && p[b] == k
    ensures forall m :: b < m < |p| - 1 ==> p[m] != k
    ensures forall m :: 0 < m < |p| - 1 && p[m] == k ==> m <= b
  {
    b := |p| - 2;
    while p[b] != k
      invariant 0 < b < |p| - 1
      invariant forall m :: b < m < |p| - 1 ==> p[m] != k
      decreases b
    {
      b := b - 1;
    }
  }

  /** Entries only shrink, so what was covered stays covered. */
  lemma RelaxKeepsCovers(t: PathTable, g: Graph, done: set<Node>, i: Node, j: Node, k: Node, x: Node, y: Node)
    requires CoversVia(t, g, done, x, y)
    ensures CoversVia(Relax(t, i, j, k), g, done, x, y)
  {
  }

  lemma InnerStaysWithin(g: Graph, sws: set<Node>, p: seq<Node>)
    requires Within(g, sws) && IsWalk(g, p)
    ensures InnerIn(p, sws)
  {
    forall m | 0 < m < |p| - 1 ensures p[m] in sws { assert (p[m], p[m + 1]) in g; }
  }

  /** A sound table that covers every walk is solved. */
  lemma SoundAndCompleteIsSolved(t: PathTable, g: Graph, sws: set<Node>)
    requires Within(g, sws) && Sound(t, g, sws) && Splits(t, g) && Diagonal(t, sws)
    requires forall i, j {:trigger CoversVia(t, g, sws, i, j)} :: i in sws && j in sws ==> CoversVia(t, g, sws, i, j)
    ensures Solved(t, g, sws)
  {
    forall e | e in t ensures e.0 in sws && e.1 in sws {
      assert SoundAt(t, g, sws, e.0, e.1);
    }
    forall i, j | i in sws && j in sws ensures ExactAt(t, g, i, j) {
      forall p | WalkFromTo(g, p, i, j) ensures (i, j) in t && t[(i, j)].dist + 1 <= |p| {
        InnerStaysWithin(g, sws, p);
        assert CoversVia(t, g, sws, i, j);
      }
      assert SoundAt(t, g, sws, i, j);
    }
  }

  /** The distance between two switches as a table answers it: _get_raw_path returns
      without consulting the table when source and destination coincide. */
  function Answer(t: PathTable, i: Node, j: Node): Option<nat> {
    if i == j then Some(0) else if (i, j) in t then Some(t[(i, j)].dist) else None
  }

  lemma DistanceIsUnique(g: Graph, u: Node, v: Node, d: nat, d': nat)
    requires IsDistance(g, u, v, d) && IsDistance(g, u, v, d')
    ensures d == d'
  {
  }

  lemma JoinedStaysWithin(g: Graph, sws: set<Node>, i: Node, j: Node)
    requires Within(g, sws) && Joined(g, i, j) && i != j
    ensures i in sws && j in sws
  {
    var p :| WalkFromTo(g, p, i, j);
    assert (p[0], p[0 + 1]) in g;
    assert (p[|p| - 2], p[|p| - 2 + 1]) in g;
  }

  /** A table solved for fewer switches answers like a fresh one, as long as the
      switches it has not seen carry no link. */
  lemma StaleTableAnswersTheSame(stale: PathTable, recomputed: PathTable, g: Graph,
                                 known: set<Node>, sws: set<Node>, i: Node, j: Node)
    requires known <= sws && Within(g, known)
    requires Solved(stale, g, known) && Solved(recomputed, g, sws)
    ensures Answer(stale, i, j) == Answer(recomputed, i, j)
  {
    if i != j && ((i, j) in stale || (i, j) in recomputed) {
      if (i, j) in recomputed {
        EntryMeansJoined(recomputed, g, sws, i, j);
        JoinedStaysWithin(g, known, i, j);
      }
      assert ExactAt(stale, g, i, j);
      assert ExactAt(recomputed, g, i, j);
      if (i, j) in stale {
        EntryMeansJoined(stale, g, known, i, j);
        DistanceIsUnique(g, i, j, stale[(i, j)].dist, recomputed[(i, j)].dist);
      }
    }
  }

  lemma EntryMeansJoined(t: PathTable, g: Graph, sws: set<Node>, i: Node, j: Node)
    requires Solved(t, g, sws) && (i, j) in t
    ensures Joined(g, i, j) && IsDistance(g, i, j, t[(i, j)].dist) && i in sws && j in sws
  {
    assert (i, j).0 in sws && (i, j).1 in sws;
    assert ExactAt(t, g, i, j);
    var p :| WalkFromTo(g, p, i, j) && |p| == t[(i, j)].dist + 1;
  }

  // ---------------------------------------------------------------- reading a path back

  /** Both halves of every split are strictly shorter than the whole. */
  ghost predicate HalvesAt(t: PathTable, i: Node, j: Node) {
    (i, j) in t && t[(i, j)].mid.Some? ==>
      var k := t[(i, j)].mid.value;
      && (i, k) in t && t[(i, k)].dist < t[(i, j)].dist
      && (k, j) in t && t[(k, j)].dist < t[(i, j)].dist
  }

  ghost predicate Halving(t: PathTable) {
    forall i, j {:trigger HalvesAt(t, i, j)} :: HalvesAt(t, i, j)
  }

  /** In a solved table the two halves of a split add up exactly. */
  lemma SplitIsExact(t: PathTable, g: Graph, sws: set<Node>, i: Node, j: Node)
    requires Solved(t, g, sws) && (i, j) in t && t[(i, j)].mid.Some?
    ensures var k := t[(i, j)].mid.value;
      && i != k && k != j && (i, k) in t && (k, j) in t
      && t[(i, k)].dist > 0 && t[(k, j)].dist > 0
      && t[(i, k)].dist + t[(k, j)].dist == t[(i, j)].dist
  {
    var k := t[(i, j)].mid.value;
    assert SplitsAt(t, g, i, j);
    EntryMeansJoined(t, g, sws, i, k);
    EntryMeansJoined(t, g, sws, k, j);
    EntryMeansJoined(t, g, sws, i, j);
    var p :| WalkFromTo(g, p, i, k) && |p| == t[(i, k)].dist + 1;
    var q :| WalkFromTo(g, q, k, j) && |q| == t[(k, j)].dist + 1;
    JoinWalks(g, p, q, i, k, j);
  }

  lemma SolvedIsHalving(t: PathTable, g: Graph, sws: set<Node>)
    requires Solved(t, g, sws)
    ensures Halving(t)
  {
    forall i, j ensures HalvesAt(t, i, j) {
      if (i, j) in t && t[(i, j)].mid.Some? {
        SplitIsExact(t, g, sws, i, j);
      }
    }
  }

  /** _get_raw_path on a filled table: the switches strictly between src and dst. The
      recursion halves at the stored intermediate; the distance is what decreases. */
  function RawPath(t: PathTable, src: Node, dst: Node): (r: Option<seq<Node>>)
    requires Halving(t)
    decreases if (src, dst) in t then t[(src, dst)].dist + 1 else 0
    ensures r.None? <==> src != dst && (src, dst) !in t
  {
    if src == dst then Some([])
    else if (src, dst) !in t then None
    else match t[(src, dst)].mid
      case None => Some([])
      case Some(k) =>
        assert HalvesAt(t, src, dst);
        var left := RawPath(t, src, k);
        var right := RawPath(t, k, dst);
        Some(left.value + [k] + right.value)
  }

  /** The path read back is a walk of exactly the stored length. */
  lemma {:induction false} RawPathIsShortest(t: PathTable, g: Graph, sws: set<Node>, src: Node, dst: Node)
    requires Solved(t, g, sws) && Halving(t) && src != dst && (src, dst) in t
    ensures WalkFromTo(g, [src] + RawPath(t, src, dst).value + [dst], src, dst)
    ensures |[src] + RawPath(t, src, dst).value + [dst]| == t[(src, dst)].dist + 1
    decreases t[(src, dst)].dist
  {
    match t[(src, dst)].mid
    case None =>
      assert SplitsAt(t, g, src, dst);
      assert [src] + [] + [dst] == [src, dst];
    case Some(k) =>
      SplitIsExact(t, g, sws, src, dst);
      RawPathIsShortest(t, g, sws, src, k);
      RawPathIsShortest(t, g, sws, k, dst);
      var left, right := RawPath(t, src, k).value, RawPath(t, k, dst).value;
      JoinWalks(g, [src] + left + [k], [k] + right + [dst], src, k, dst);
      assert [src] + (left + [k] + right) + [dst] == ([src] + left + [k]) + ([k] + right + [dst])[1..];
  }
}
