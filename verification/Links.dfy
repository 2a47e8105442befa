/** The directed links that discovery knows (pox/openflow/discovery.py). */
module Links {
  import opened Graphs

  type Port = nat
  datatype Link = Link(dpid1: Node, port1: Port, dpid2: Node, port2: Port)

  function Flip(l: Link): Link {
    Link(l.dpid2, l.port2, l.dpid1, l.port1)
  }

  /** Discovery knows some link from s1 to s2 in both directions. */
  ghost predicate TwoWay(known: set<Link>, s1: Node, s2: Node) {
    exists l :: l in known && l.dpid1 == s1 && l.dpid2 == s2 && Flip(l) in known
  }

  /** Links join distinct switches (spanning_tree.py asserts it). */
  predicate NoSelfLinks(known: set<Link>) {
    forall l :: l in known ==> l.dpid1 != l.dpid2
  }

  lemma TwoWaySymmetric(known: set<Link>, s1: Node, s2: Node)
    requires TwoWay(known, s1, s2)
    ensures TwoWay(known, s2, s1)
  {
  }

  /** A port index over pairs of switches: the port of the first towards the second. */
  type PortIndex = map<(Node, Node), Port>

  /** The index holds a pair exactly when a two-way link joins it, and then the two
      ports it holds are the two ends of one such link. */
  ghost predicate AgreesAt(index: PortIndex, known: set<Link>, s1: Node, s2: Node) {
    && ((s1, s2) in index <==> TwoWay(known, s1, s2))
    && ((s1, s2) in index ==>
          && (s2, s1) in index
          && Link(s1, index[(s1, s2)], s2, index[(s2, s1)]) in known
          && Link(s2, index[(s2, s1)], s1, index[(s1, s2)]) in known)
  }

  ghost predicate Agrees(index: PortIndex, known: set<Link>) {
    forall s1, s2 {:trigger AgreesAt(index, known, s1, s2)} :: AgreesAt(index, known, s1, s2)
  }
}
