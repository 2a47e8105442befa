/** Link discovery (pox/openflow/discovery.py) driving the learning switch: LLDP packets
    add links, timeouts and lost connections remove them, and each change is announced
    to l2_multi while discovery's own table already reflects it. */
module Discoveries {
  import opened Graphs
  import opened Links
  import opened Options
  import opened PathTables
  import opened L2Multi

  const LINK_TIMEOUT := 10.0

  /** What may happen to the controller, in any order. */
  datatype Event =
    | SwitchUp(dpid: Node)
    | SwitchDown(dpid: Node)
    | Lldp(origin: Node, originPort: Port, dpid: Node, port: Port, now: real)
    | ExpiryTimer(now: real)
    | PathLookup(src: Node, dst: Node, lastPort: Port)

  /** A path lookup together with the links and the index of the moment it was made. */
  datatype Lookup = Lookup(known: set<Link>, index: PortIndex, src: Node, dst: Node, lastPort: Port,
                           path: Option<seq<Hop>>)

  /** The answer is right for the links known at that moment: the index agrees with them,
      a path exists exactly when the switches are joined by two-way links, it is a shortest one,
      and it follows such links, port by port. */
  ghost predicate RightAnswer(a: Lookup) {
    && Agrees(a.index, a.known)
    && (a.path.None? <==> !Joined(a.index.Keys, a.src, a.dst))
    && (a.path.Some? ==>
          GoodPath(a.index, a.path.value, a.src, a.dst, a.lastPort) && FollowsLinks(a.known, a.path.value))
  }

  /** What the controller knows: the connected switches, the links with the time each was
      last seen, and every switch the learning switch has ever seen. */
  datatype Knowledge = Knowledge(dps: set<Node>, adjacency: map<Link, real>, seen: set<Node>)

  /** What an event does to that knowledge. An event that names a switch in the wrong state (a
      second connection, an LLDP packet from a port nobody is connected to) changes nothing. */
  function Learn(k: Knowledge, e: Event): Knowledge {
    match e
    case SwitchUp(dpid) => k.(dps := k.dps + {dpid}, seen := k.seen + {dpid})
    case SwitchDown(dpid) =>
      if dpid !in k.dps then k
      else k.(dps := k.dps - {dpid},
              adjacency := map l | l in k.adjacency && l.dpid1 != dpid && l.dpid2 != dpid :: k.adjacency[l])
    case Lldp(origin, originPort, dpid, port, now) =>
      if dpid in k.dps && origin in k.dps && origin != dpid
      then k.(adjacency := k.adjacency[Link(origin, originPort, dpid, port) := now])
      else k
    case ExpiryTimer(now) =>
      k.(adjacency := map l | l in k.adjacency && now - k.adjacency[l] <= LINK_TIMEOUT :: k.adjacency[l])
    case PathLookup(_, _, _) => k
  }

  function LearnAll(k: Knowledge, events: seq<Event>): Knowledge
    decreases |events|
  {
    if events == [] then k else Learn(LearnAll(k, events[..|events| - 1]), events[|events| - 1])
  }

  lemma LearnOneMore(k: Knowledge, events: seq<Event>, m: nat)
    requires m < |events|
    ensures LearnAll(k, events[..m + 1]) == Learn(LearnAll(k, events[..m]), events[m])
  {
    assert events[..m + 1][..m] == events[..m];
  }

  // ---------------------------------------------------------------- what the events say

  const NOTHING := Knowledge({}, map[], {})

  /** The last time the switch came or went, it came. */
  ghost predicate Connected(events: seq<Event>, dpid: Node) {
    exists m :: 0 <= m < |events| && events[m] == SwitchUp(dpid)
      && forall n :: m < n < |events| ==> events[n] != SwitchDown(dpid)
  }

  ghost predicate EverUp(events: seq<Event>, dpid: Node) {
    exists m :: 0 <= m < |events| && events[m] == SwitchUp(dpid)
  }

  /** An LLDP packet that crossed this link. */
  predicate Crosses(e: Event, link: Link) {
    e.Lldp? && (e.origin, e.originPort, e.dpid, e.port) == (link.dpid1, link.port1, link.dpid2, link.port2)
  }

  /** Both ends were connected when event number m saw the link, and since then neither was lost,
      the link was not seen again, and no timer ran more than ten seconds later. */
  ghost predicate LastSeenAt(events: seq<Event>, link: Link, m: nat) {
    && m < |events| && Crosses(events[m], link) && link.dpid1 != link.dpid2
    && Connected(events[..m], link.dpid1) && Connected(events[..m], link.dpid2)
    && forall n :: m < n < |events| ==> !Overrides(events[n], link, events[m].now)
  }

  /** What ends the time a link was seen at. */
  predicate Overrides(e: Event, link: Link, seenAt: real) {
    match e
    case SwitchUp(_) => false
    case SwitchDown(dpid) => dpid == link.dpid1 || dpid == link.dpid2
    case Lldp(_, _, _, _, _) => Crosses(e, link)
    case ExpiryTimer(now) => now - seenAt > 10.0
    case PathLookup(_, _, _) => false
  }

  /** Every fact of the knowledge, told by the events alone. */
  ghost predicate TellsOf(events: seq<Event>, k: Knowledge) {
    && (forall dpid :: TellsOfSwitch(events, k, dpid))
    && (forall link :: TellsOfLink(events, k, link))
  }

  ghost predicate TellsOfSwitch(events: seq<Event>, k: Knowledge, dpid: Node) {
    (dpid in k.dps <==> Connected(events, dpid)) && (dpid in k.seen <==> EverUp(events, dpid))
  }

  ghost predicate TellsOfLink(events: seq<Event>, k: Knowledge, link: Link) {
    && (link in k.adjacency ==> exists m: nat :: LastSeenAt(events, link, m))
    && (forall m: nat :: LastSeenAt(events, link, m) ==> link in k.adjacency && k.adjacency[link] == events[m].now)
  }

  lemma ConnectedOneMore(events: seq<Event>, e: Event, dpid: Node)
    ensures Connected(events + [e], dpid) <==> e == SwitchUp(dpid) || (Connected(events, dpid) && e != SwitchDown(dpid))
    ensures EverUp(events + [e], dpid) <==> e == SwitchUp(dpid) || EverUp(events, dpid)
  {
    var more, n := events + [e], |events|;
    if e == SwitchUp(dpid) {
      assert more[n] == SwitchUp(dpid);
    }
    if Connected(events, dpid) && e != SwitchDown(dpid) {
      var m :| 0 <= m < n && events[m] == SwitchUp(dpid) && forall i :: m < i < n ==> events[i] != SwitchDown(dpid);
      assert more[m] == SwitchUp(dpid);
    }
    if EverUp(events, dpid) {
      var m :| 0 <= m < n && events[m] == SwitchUp(dpid);
      assert more[m] == SwitchUp(dpid);
    }
    if Connected(more, dpid) && e != SwitchUp(dpid) {
      var m :| 0 <= m <= n && more[m] == SwitchUp(dpid) && forall i :: m < i <= n ==> more[i] != SwitchDown(dpid);
      assert more[n] == e && events[m] == SwitchUp(dpid);
      assert forall i :: m < i < n ==> events[i] == more[i];
    }
  }

  /** The link was seen last by the new event, or by the same event as before. */
  lemma LastSeenOneMore(events: seq<Event>, e: Event, link: Link, m: nat)
    ensures LastSeenAt(events + [e], link, m) <==>
      if m == |events| then
        Crosses(e, link) && link.dpid1 != link.dpid2 && Connected(events, link.dpid1) && Connected(events, link.dpid2)
      else LastSeenAt(events, link, m) && !Overrides(e, link, events[m].now)
  {
    var more, n := events + [e], |events|;
    if m == n {
      assert more[..m] == events;
    } else if m < n {
      assert more[..m] == events[..m] && more[n] == e && more[m] == events[m];
      if LastSeenAt(events, link, m) && !Overrides(e, link, events[m].now) {
        forall i | m < i < |more| ensures !Overrides(more[i], link, more[m].now) {
          assert i < n ==> more[i] == events[i];
        }
      }
      if LastSeenAt(more, link, m) {
        forall i | m < i < n ensures !Overrides(events[i], link, events[m].now) {
          assert more[i] == events[i];
        }
      }
    }
  }

  /** One event, by what it does to one link. */
  lemma LearnLink(k: Knowledge, e: Event, link: Link)
    ensures var seesIt := Crosses(e, link) && link.dpid1 in k.dps && link.dpid2 in k.dps && link.dpid1 != link.dpid2;
      var stays := link in k.adjacency && !Overrides(e, link, k.adjacency[link]);
      var after := Learn(k, e).adjacency;
      && (seesIt ==> link in after && after[link] == e.now)
      && (!seesIt && (link in k.adjacency ==> link.dpid1 in k.dps && link.dpid2 in k.dps && link.dpid1 != link.dpid2)
          ==> (link in after <==> stays) && (stays ==> after[link] == k.adjacency[link]))
  {
  }

  lemma LinkOneMore(events: seq<Event>, e: Event, k: Knowledge, link: Link)
    requires TellsOf(events, k) && LinksConnected(k)
    ensures TellsOfLink(events + [e], Learn(k, e), link)
  {
    assert TellsOfLink(events, k, link) && TellsOfSwitch(events, k, link.dpid1) && TellsOfSwitch(events, k, link.dpid2);
    var more, after := events + [e], Learn(k, e);
    LearnLink(k, e, link);
    forall m: nat | LastSeenAt(more, link, m)
      ensures link in after.adjacency && after.adjacency[link] == more[m].now
    {
      LastSeenOneMore(events, e, link, m);
    }
    if link in after.adjacency {
      if Crosses(e, link) && link.dpid1 in k.dps && link.dpid2 in k.dps && link.dpid1 != link.dpid2 {
        LastSeenOneMore(events, e, link, |events|);
      } else {
        var m: nat :| LastSeenAt(events, link, m);
        LastSeenOneMore(events, e, link, m);
      }
    }
  }

  lemma TellsOneMore(events: seq<Event>, e: Event, k: Knowledge)
    requires TellsOf(events, k) && LinksConnected(k)
    ensures TellsOf(events + [e], Learn(k, e))
  {
    forall dpid ensures TellsOfSwitch(events + [e], Learn(k, e), dpid) {
      assert TellsOfSwitch(events, k, dpid);
      ConnectedOneMore(events, e, dpid);
    }
    forall link ensures TellsOfLink(events + [e], Learn(k, e), link) {
      LinkOneMore(events, e, k, link);
    }
  }

  lemma LinksStayConnected(k: Knowledge, e: Event)
    requires LinksConnected(k)
    ensures LinksConnected(Learn(k, e))
  {
  }

  predicate LinksConnected(k: Knowledge) {
    forall link :: link in k.adjacency ==>
      link.dpid1 in k.dps && link.dpid2 in k.dps && link.dpid1 != link.dpid2
  }

  /** For every run from the start: a switch is connected exactly when it came and has not gone
      since, it has been seen exactly when it ever came, and a link is known, with the time it was
      last seen, exactly when it has been seen between connected switches that both stayed, with
      no timer after its timeout. */
  lemma {:induction false} KnownExactly(events: seq<Event>)
    ensures TellsOf(events, LearnAll(NOTHING, events)) && LinksConnected(LearnAll(NOTHING, events))
    decreases |events|
  {
    if events != [] {
      var n := |events| - 1;
      KnownExactly(events[..n]);
      TellsOneMore(events[..n], events[n], LearnAll(NOTHING, events[..n]));
      LinksStayConnected(LearnAll(NOTHING, events[..n]), events[n]);
      assert events == events[..n] + [events[n]];
    } else {
      forall link ensures TellsOfLink(events, NOTHING, link) {}
      forall dpid ensures TellsOfSwitch(events, NOTHING, dpid) {}
    }
  }

  /** The answer to event number m of a run: to a look-up between switches seen by then, the
      right one for the links known then; to anything else, none. */
  ghost predicate AnswerTo(k: Knowledge, events: seq<Event>, m: nat, a: Option<Lookup>)
    requires m < |events|
  {
    var e := events[m];
    var before := LearnAll(k, events[..m]);
    if e.PathLookup? && e.src in before.seen && e.dst in before.seen
    then a.Some? && RightAnswer(a.value) && a.value.known == before.adjacency.Keys
         && a.value.src == e.src && a.value.dst == e.dst && a.value.lastPort == e.lastPort
    else a.None?
  }

  /** For a run from the start, on the events alone: a look-up is answered exactly when both
      switches came at some time, for the links that were last seen before it. */
  lemma AnsweredByEvents(events: seq<Event>, m: nat, a: Option<Lookup>)
    requires m < |events| && AnswerTo(NOTHING, events, m, a)
    ensures a.Some? <==>
      events[m].PathLookup? && EverUp(events[..m], events[m].src) && EverUp(events[..m], events[m].dst)
    ensures a.Some? ==> RightAnswer(a.value) && a.value.src == events[m].src && a.value.dst == events[m].dst
    ensures a.Some? ==> forall link :: link in a.value.known <==> exists n: nat :: LastSeenAt(events[..m], link, n)
  {
    var k := LearnAll(NOTHING, events[..m]);
    KnownExactly(events[..m]);
    if events[m].PathLookup? {
      assert TellsOfSwitch(events[..m], k, events[m].src) && TellsOfSwitch(events[..m], k, events[m].dst);
    }
    forall link ensures link in k.adjacency <==> exists n: nat :: LastSeenAt(events[..m], link, n) {
      assert TellsOfLink(events[..m], k, link);
    }
  }

  class Discovery {
    var dps: set<Node>
    var adjacency: map<Link, real>  // link to the time it was last seen
    const l2: L2Multi

    /** What holds after every single link event, also between the events of one handler. */
    ghost predicate Coherent()
      reads this`adjacency, l2
    {
      && l2.Valid()
      && Agrees(l2.adjacency, adjacency.Keys)
      && NoSelfLinks(adjacency.Keys)
      && (forall l :: l in adjacency ==> l.dpid1 in l2.switches && l.dpid2 in l2.switches)
    }

    /** What holds between handlers: links join connected switches. */
    ghost predicate Valid()
      reads this, l2
    {
      && Coherent()
      && (forall l :: l in adjacency ==> l.dpid1 in dps && l.dpid2 in dps)
      && dps <= Ids(l2.switches)
    }

    ghost function Known(): Knowledge
      reads this, l2
    {
      Knowledge(dps, adjacency, Ids(l2.switches))
    }

    constructor ()
      ensures Valid() && fresh(l2) && Known() == NOTHING
    {
      dps, adjacency := {}, map[];
      l2 := new L2Multi();
      new;
      forall s1, s2 ensures AgreesAt(l2.adjacency, adjacency.Keys, s1, s2) {}
    }

    /** _handle_ConnectionUp here and in l2_multi. */
    method HandleConnectionUp(dpid: Node)
      requires Valid() && dpid !in dps
      modifies this`dps, l2`switches
      ensures Valid() && dps == old(dps) + {dpid} && adjacency == old(adjacency)
      ensures Ids(l2.switches) == old(Ids(l2.switches)) + {dpid}
    {
      dps := dps + {dpid};
      l2.HandleConnectionUp(dpid);
    }

    /** The tail of _handle_PacketIn: an LLDP packet sent from (origin, originPort) came in
        at (dpid, port). No cable joins two ports of one switch. */
    method HandleLldp(origin: Node, originPort: Port, dpid: Node, port: Port, now: real)
      requires Valid() && dpid in dps
      requires origin == dpid ==> originPort == port
      modifies this`adjacency, l2`adjacency, l2`pathMap
      ensures Valid()
      ensures adjacency == if origin in dps && origin != dpid
                           then old(adjacency)[Link(origin, originPort, dpid, port) := now]
                           else old(adjacency)
    {
      if origin !in dps { return; }
      if (dpid, port) == (origin, originPort) { return; }
      var link := Link(origin, originPort, dpid, port);
      if link !in adjacency {
        ghost var known, index := adjacency.Keys, l2.adjacency;
        adjacency := adjacency[link := now];
        assert adjacency.Keys == known + {link};
        l2.HandleLinkEvent(adjacency.Keys, link, false);
        AddedKeepsAgreement(index, l2.adjacency, known, link);
      } else {
        ghost var known := adjacency.Keys;
        adjacency := adjacency[link := now];
        assert adjacency.Keys == known;
      }
    }

    /** The body of the loop in _deleteLinks: the link goes first, then its event is raised. */
    method DeleteLink(link: Link)
      requires Coherent() && link in adjacency
      modifies this`adjacency, l2`adjacency, l2`pathMap
      ensures Coherent() && adjacency == old(adjacency) - {link}
    {
      ghost var known, index := adjacency.Keys, l2.adjacency;
      adjacency := adjacency - {link};
      assert adjacency.Keys == known - {link};
      l2.HandleLinkEvent(adjacency.Keys, link, true);
      RemovedKeepsAgreement(index, l2.adjacency, known, link);
    }

    /** _deleteLinks */
    method DeleteLinks(links: seq<Link>)
      requires Coherent() && NoRepeats(links) && forall l :: l in links ==> l in adjacency
      modifies this`adjacency, l2`adjacency, l2`pathMap
      ensures Coherent()
      ensures adjacency == old(adjacency) - set l | l in links
    {
      for m := 0 to |links|
        invariant Coherent()
        invariant adjacency == old(adjacency) - set l | l in links[..m]
      {
        DeleteLink(links[m]);
        assert links[..m + 1] == links[..m] + [links[m]];
      }
      assert links[..|links|] == links;
    }

    /** _expireLinks */
    method ExpireLinks(now: real)
      requires Valid()
      modifies this`adjacency, l2`adjacency, l2`pathMap
      ensures Valid()
      ensures adjacency == map l | l in old(adjacency) && now - old(adjacency)[l] <= LINK_TIMEOUT :: old(adjacency)[l]
    {
      var deleteme := Collect(set l | l in adjacency && now - adjacency[l] > LINK_TIMEOUT);
      DeleteLinks(deleteme);
    }

    /** _handle_ConnectionDown: every link at the lost switch is deleted. */
    method HandleConnectionDown(dpid: Node)
      requires Valid() && dpid in dps
      modifies this, l2`adjacency, l2`pathMap
      ensures Valid() && dps == old(dps) - {dpid}
      ensures adjacency == map l | l in old(adjacency) && l.dpid1 != dpid && l.dpid2 != dpid :: old(adjacency)[l]
    {
      dps := dps - {dpid};
      var deleteme := Collect(set l | l in adjacency && (l.dpid1 == dpid || l.dpid2 == dpid));
      DeleteLinks(deleteme);
    }

    method Handle(e: Event) returns (a: Option<Lookup>)
      requires Valid()
      requires e.Lldp? && e.origin == e.dpid ==> e.originPort == e.port
      modifies this, l2
      ensures Valid() && Known() == Learn(old(Known()), e)
      ensures AnswerTo(old(Known()), [e], 0, a)
    {
      a := None;
      assert [e][..0] == [];
      match e
      case SwitchUp(dpid) =>
        if dpid !in dps { HandleConnectionUp(dpid); }
      case SwitchDown(dpid) =>
        if dpid in dps { HandleConnectionDown(dpid); }
      case Lldp(origin, originPort, dpid, port, now) =>
        if dpid in dps { HandleLldp(origin, originPort, dpid, port, now); }
      case ExpiryTimer(now) =>
        ExpireLinks(now);
      case PathLookup(src, dst, lastPort) =>
        if src in l2.switches && dst in l2.switches {
          var path := l2.GetPath(src, dst, lastPort);
          if path.Some? {
            PathFollowsLinks(l2.adjacency, adjacency.Keys, path.value);
          }
          a := Some(Lookup(adjacency.Keys, l2.adjacency, src, dst, lastPort, path));
        }
    }

    /** Any run of the controller, from any reachable state: what it knows is what the events add,
        and from the start what they tell; the index agrees with the known links at the end; and
        every look-up on the way was answered correctly for the links known at that moment,
        although the distance table is only recomputed when an event has emptied it. */
    method Run(events: seq<Event>) returns (answers: seq<Option<Lookup>>)
      requires Valid()
      requires forall e :: e in events && e.Lldp? && e.origin == e.dpid ==> e.originPort == e.port
      modifies this, l2
      ensures Valid() && Known() == LearnAll(old(Known()), events)
      ensures old(Known()) == NOTHING ==> TellsOf(events, Known())
      ensures |answers| == |events|
      ensures forall m :: 0 <= m < |events| ==> AnswerTo(old(Known()), events, m, answers[m])
    {
      answers := [];
      for m := 0 to |events|
        invariant Valid() && Known() == LearnAll(old(Known()), events[..m])
        invariant |answers| == m
        invariant forall n :: 0 <= n < m ==> AnswerTo(old(Known()), events, n, answers[n])
      {
        LearnOneMore(old(Known()), events, m);
        ghost var before := Known();
        assert [events[m]][..0] == [];
        var a := Handle(events[m]);
        assert AnswerTo(before, [events[m]], 0, a);
        answers := answers + [a];
      }
      assert events[..|events|] == events;
      KnownExactly(events);
    }
  }

  /** The members of a set as a list, in some order. */
  method Collect(links: set<Link>) returns (r: seq<Link>)
    ensures NoRepeats(r) && forall l :: l in r <==> l in links
  {
    r := [];
    var rest := links;
    while rest != {}
      invariant rest <= links && NoRepeats(r)
      invariant forall l :: l in r <==> l in links && l !in rest
    {
      var l :| l in rest;
      r := r + [l];
      rest := rest - {l};
    }
  }
}
