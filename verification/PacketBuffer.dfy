/** The packet buffer of the software switch (pox/openflow/switch_impl.py): a list of slots,
    filled first free slot first. Releasing a buffered packet runs actions, which may buffer
    packets and release others before the slot is cleared. */
module PacketBuffers {
  import opened Options
  import opened Sequences

  /** A packet object and the port it came in by. */
  datatype Held = Held(packet: nat, inPort: nat)

  type Slots = seq<Option<Held>>

  /** What is asked of the buffer; a release carries what its actions ask in turn. */
  datatype Op = Buffer(held: Held) | Release(id: nat, actions: seq<Op>)

  datatype Event =
    | Issued(id: nat, held: Held)     // _buffer_packet returned id
    | Yielded(id: nat, held: Held)    // the actions run on this packet
    | Cleared(id: nat)                // the slot is set to None
    | Refused(id: nat)                // "Invalid output buffer id"

  /** raised: an IndexError ended the operation and those around it. */
  datatype Outcome = Outcome(slots: Slots, trace: seq<Event>, raised: bool)

  /** The first free slot, or the length of the list. */
  function FreeSlot(slots: Slots): (k: nat)
    ensures k <= |slots|
    ensures k < |slots| ==> slots[k].None?
    ensures forall i :: 0 <= i < k ==> slots[i].Some?
  {
    if slots == [] || slots[0].None? then 0 else 1 + FreeSlot(slots[1..])
  }

  function Filled(slots: Slots, held: Held): Slots {
    var k := FreeSlot(slots);
    if k < |slots| then slots[k := Some(held)] else slots + [Some(held)]
  }

  /** The release gets as far as running its actions. */
  predicate CarriedOut(slots: Slots, id: nat) { 0 < id <= |slots| && slots[id - 1].Some? }

  /** The callers drop id 0. The bound is compared after id was decremented, so the id just past
      the end passes the check and the look-up fails. */
  function Perform(slots: Slots, op: Op): (out: Outcome)
    ensures |out.slots| >= |slots|
    decreases op
  {
    match op
    case Buffer(held) => Outcome(Filled(slots, held), [Issued(FreeSlot(slots) + 1, held)], false)
    case Release(id, actions) =>
      if id == 0 then Outcome(slots, [], false)
      else if id - 1 == |slots| then Outcome(slots, [], true)
      else if !CarriedOut(slots, id) then Outcome(slots, [Refused(id)], false)
      else
        var inner := PerformAll(slots, actions);
        var trace := [Yielded(id, slots[id - 1].value)] + inner.trace;
        if inner.raised then Outcome(inner.slots, trace, true)
        else Outcome(inner.slots[id - 1 := None], trace + [Cleared(id)], false)
  }

  function PerformAll(slots: Slots, ops: seq<Op>): (out: Outcome)
    ensures |out.slots| >= |slots|
    decreases ops
  {
    if ops == [] then Outcome(slots, [], false)
    else
      var first := Perform(slots, ops[0]);
      if first.raised then first
      else
        var rest := PerformAll(first.slots, ops[1..]);
        Outcome(rest.slots, first.trace + rest.trace, rest.raised)
  }

  // ---------------------------------------------------------------- what a trace says

  /** An id that is out, the packet it was issued for, and whether that packet was yielded. */
  datatype Issue = Issue(held: Held, yielded: bool)

  function Step(live: map<nat, Issue>, e: Event): map<nat, Issue> {
    match e
    case Issued(id, held) => live[id := Issue(held, false)]
    case Yielded(id, held) => if id in live then live[id := live[id].(yielded := true)] else live
    case Cleared(id) => live - {id}
    case Refused(_) => live
  }

  function After(live: map<nat, Issue>, trace: seq<Event>): map<nat, Issue>
    decreases |trace|
  {
    if trace == [] then live else After(Step(live, trace[0]), trace[1..])
  }

  /** A new id is not out; an id yields the packet it was issued for; only an id that is out
      and has yielded its packet is cleared; only ids that are not out are refused. */
  predicate Proper(live: map<nat, Issue>, e: Event) {
    match e
    case Issued(id, _) => id !in live
    case Yielded(id, held) => id in live && live[id].held == held
    case Cleared(id) => id in live && live[id].yielded
    case Refused(id) => id !in live
  }

  predicate Faithful(live: map<nat, Issue>, trace: seq<Event>)
    decreases |trace|
  {
    trace == [] || (Proper(live, trace[0]) && Faithful(Step(live, trace[0]), trace[1..]))
  }

  lemma {:induction false} Joined(live: map<nat, Issue>, a: seq<Event>, b: seq<Event>)
    ensures After(live, a + b) == After(After(live, a), b)
    ensures Faithful(live, a + b) <==> Faithful(live, a) && Faithful(After(live, a), b)
    decreases |a|
  {
    if a == [] {
      assert a + b == b;
    } else {
      assert (a + b)[1..] == a[1..] + b;
      Joined(Step(live, a[0]), a[1..], b);
    }
  }

  /** The id is out and its actions are running. */
  predicate Running(live: map<nat, Issue>, id: nat) { id in live && live[id].yielded }

  lemma One(live: map<nat, Issue>, e: Event)
    ensures After(live, [e]) == Step(live, e)
    ensures Faithful(live, [e]) <==> Proper(live, e)
  {
  }

  /** What the trace of a release that is carried out says, from what its actions' trace says. */
  lemma ReleaseTrace(slots: Slots, id: nat, actions: seq<Op>, live: map<nat, Issue>)
    requires CarriedOut(slots, id)
    ensures var inner := PerformAll(slots, actions);
            var yielding := Step(live, Yielded(id, slots[id - 1].value));
            var out := Perform(slots, Release(id, actions));
            && After(live, out.trace) ==
               (if inner.raised then After(yielding, inner.trace) else After(yielding, inner.trace) - {id})
            && (Faithful(live, out.trace) <==>
                && Proper(live, Yielded(id, slots[id - 1].value))
                && Faithful(yielding, inner.trace)
                && (inner.raised || Running(After(yielding, inner.trace), id)))
  {
    var inner := PerformAll(slots, actions);
    var first := Yielded(id, slots[id - 1].value);
    var yielding := Step(live, first);
    One(live, first);
    Joined(live, [first], inner.trace);
    Joined(live, [first] + inner.trace, [Cleared(id)]);
    One(After(yielding, inner.trace), Cleared(id));
  }

  /** The ids that are out are the occupied slots. */
  ghost predicate Matches(slots: Slots, live: map<nat, Issue>) {
    && (forall id {:trigger id in live} :: id in live <==> CarriedOut(slots, id))
    && (forall id {:trigger live[id]} :: id in live ==> slots[id - 1] == Some(live[id].held))
  }

  // ---------------------------------------------------------------- what can go wrong

  /** A release that is reached names an id one past the end of the list at that moment. */
  predicate Overruns(slots: Slots, op: Op)
    decreases op
  {
    op.Release? && (op.id == |slots| + 1 || (CarriedOut(slots, op.id) && OverrunsAny(slots, op.actions)))
  }

  predicate OverrunsAny(slots: Slots, ops: seq<Op>)
    decreases ops
  {
    ops != [] && (Overruns(slots, ops[0]) || OverrunsAny(Perform(slots, ops[0]).slots, ops[1..]))
  }

  /** An exception is raised exactly by such a release. */
  lemma {:induction false} RaisesExactly(slots: Slots, op: Op)
    ensures Perform(slots, op).raised <==> Overruns(slots, op)
    decreases op
  {
    if op.Release? {
      AnyRaisesExactly(slots, op.actions);
    }
  }

  lemma {:induction false} AnyRaisesExactly(slots: Slots, ops: seq<Op>)
    ensures PerformAll(slots, ops).raised <==> OverrunsAny(slots, ops)
    decreases ops
  {
    if ops != [] {
      RaisesExactly(slots, ops[0]);
      AnyRaisesExactly(Perform(slots, ops[0]).slots, ops[1..]);
    }
  }

  /** A release of this id is carried out. */
  predicate Releases(slots: Slots, op: Op, id: nat)
    decreases op
  {
    op.Release? && CarriedOut(slots, op.id) && (op.id == id || ReleasesAny(slots, op.actions, id))
  }

  predicate ReleasesAny(slots: Slots, ops: seq<Op>, id: nat)
    decreases ops
  {
    ops != [] &&
    (Releases(slots, ops[0], id) ||
     (!Overruns(slots, ops[0]) && ReleasesAny(Perform(slots, ops[0]).slots, ops[1..], id)))
  }

  /** Some release whose actions run to their end releases its own id among them. */
  predicate Reenters(slots: Slots, op: Op)
    decreases op
  {
    && op.Release? && CarriedOut(slots, op.id)
    && (|| ReentersAny(slots, op.actions)
        || (!OverrunsAny(slots, op.actions) && ReleasesAny(slots, op.actions, op.id)))
  }

  predicate ReentersAny(slots: Slots, ops: seq<Op>)
    decreases ops
  {
    ops != [] &&
    (Reenters(slots, ops[0]) || (!Overruns(slots, ops[0]) && ReentersAny(Perform(slots, ops[0]).slots, ops[1..])))
  }

  lemma BufferingMatches(slots: Slots, held: Held, live: map<nat, Issue>)
    requires Matches(slots, live)
    ensures FreeSlot(slots) + 1 !in live
    ensures Matches(Filled(slots, held), live[FreeSlot(slots) + 1 := Issue(held, false)])
  {
  }

  lemma ClearingMatches(slots: Slots, live: map<nat, Issue>, id: nat)
    requires Matches(slots, live) && 0 < id <= |slots|
    ensures Matches(slots[id - 1 := None], live - {id})
  {
  }

  /** The trace accounts for every slot. */
  lemma {:induction false} TraceMatches(slots: Slots, op: Op, live: map<nat, Issue>)
    requires Matches(slots, live)
    ensures Matches(Perform(slots, op).slots, After(live, Perform(slots, op).trace))
    decreases op
  {
    match op
    case Buffer(held) =>
      BufferingMatches(slots, held, live);
      One(live, Issued(FreeSlot(slots) + 1, held));
    case Release(id, actions) =>
      One(live, Refused(id));
      if CarriedOut(slots, id) {
        var yielding := Step(live, Yielded(id, slots[id - 1].value));
        var inner := PerformAll(slots, actions);
        TracesMatch(slots, actions, yielding);
        ClearingMatches(inner.slots, After(yielding, inner.trace), id);
        ReleaseTrace(slots, id, actions, live);
      }
  }

  lemma {:induction false} TracesMatch(slots: Slots, ops: seq<Op>, live: map<nat, Issue>)
    requires Matches(slots, live)
    ensures Matches(PerformAll(slots, ops).slots, After(live, PerformAll(slots, ops).trace))
    decreases ops
  {
    if ops != [] {
      var first := Perform(slots, ops[0]);
      TraceMatches(slots, ops[0], live);
      if !first.raised {
        TracesMatch(first.slots, ops[1..], After(live, first.trace));
        Joined(live, first.trace, PerformAll(first.slots, ops[1..]).trace);
      }
    }
  }

  /** An operation that ends normally leaves no further release running. */
  lemma {:induction false} NoneLeftRunning(slots: Slots, op: Op, live: map<nat, Issue>, id: nat)
    requires !Perform(slots, op).raised && Running(After(live, Perform(slots, op).trace), id)
    ensures Running(live, id)
    decreases op
  {
    match op
    case Buffer(held) => One(live, Issued(FreeSlot(slots) + 1, held));
    case Release(released, actions) =>
      One(live, Refused(released));
      if CarriedOut(slots, released) {
        ReleaseTrace(slots, released, actions, live);
        NoneOfThemLeftRunning(slots, actions, Step(live, Yielded(released, slots[released - 1].value)), id);
      }
  }

  lemma {:induction false} NoneOfThemLeftRunning(slots: Slots, ops: seq<Op>, live: map<nat, Issue>, id: nat)
    requires !PerformAll(slots, ops).raised && Running(After(live, PerformAll(slots, ops).trace), id)
    ensures Running(live, id)
    decreases ops
  {
    if ops != [] {
      var first := Perform(slots, ops[0]);
      Joined(live, first.trace, PerformAll(first.slots, ops[1..]).trace);
      NoneOfThemLeftRunning(first.slots, ops[1..], After(live, first.trace), id);
      NoneLeftRunning(slots, ops[0], live, id);
    }
  }

  /** An id whose actions are running keeps running as long as it is not released. */
  lemma {:induction false} RunningUntilReleased(slots: Slots, op: Op, live: map<nat, Issue>, id: nat)
    requires Matches(slots, live) && Running(live, id) && !Releases(slots, op, id)
    ensures Running(After(live, Perform(slots, op).trace), id)
    decreases op
  {
    match op
    case Buffer(held) =>
      BufferingMatches(slots, held, live);
      One(live, Issued(FreeSlot(slots) + 1, held));
    case Release(released, actions) =>
      One(live, Refused(released));
      if CarriedOut(slots, released) {
        RunningUntilAnyReleases(slots, actions, Step(live, Yielded(released, slots[released - 1].value)), id);
        ReleaseTrace(slots, released, actions, live);
      }
  }

  lemma {:induction false} RunningUntilAnyReleases(slots: Slots, ops: seq<Op>, live: map<nat, Issue>, id: nat)
    requires Matches(slots, live) && Running(live, id) && !ReleasesAny(slots, ops, id)
    ensures Running(After(live, PerformAll(slots, ops).trace), id)
    decreases ops
  {
    if ops != [] {
      var first := Perform(slots, ops[0]);
      RaisesExactly(slots, ops[0]);
      RunningUntilReleased(slots, ops[0], live, id);
      if !first.raised {
        TraceMatches(slots, ops[0], live);
        RunningUntilAnyReleases(first.slots, ops[1..], After(live, first.trace), id);
        Joined(live, first.trace, PerformAll(first.slots, ops[1..]).trace);
      }
    }
  }

  /** After an operation that ends normally and released an id, that id is not running. */
  lemma {:induction false} ReleasedIsNotRunning(slots: Slots, op: Op, live: map<nat, Issue>, id: nat)
    requires Releases(slots, op, id) && !Perform(slots, op).raised
    ensures !Running(After(live, Perform(slots, op).trace), id)
    decreases op
  {
    ReleaseTrace(slots, op.id, op.actions, live);
    if op.id != id {
      AnyReleasedIsNotRunning(slots, op.actions, Step(live, Yielded(op.id, slots[op.id - 1].value)), id);
    }
  }

  lemma {:induction false} AnyReleasedIsNotRunning(slots: Slots, ops: seq<Op>, live: map<nat, Issue>, id: nat)
    requires ReleasesAny(slots, ops, id) && !PerformAll(slots, ops).raised
    ensures !Running(After(live, PerformAll(slots, ops).trace), id)
    decreases ops
  {
    var first := Perform(slots, ops[0]);
    var mid, rest := After(live, first.trace), PerformAll(first.slots, ops[1..]);
    Joined(live, first.trace, rest.trace);
    if Releases(slots, ops[0], id) {
      ReleasedIsNotRunning(slots, ops[0], live, id);
      if Running(After(mid, rest.trace), id) {
        NoneOfThemLeftRunning(first.slots, ops[1..], mid, id);
      }
    } else {
      AnyReleasedIsNotRunning(first.slots, ops[1..], mid, id);
    }
  }

  /** From any state that matches, an operation is faithful exactly when it re-enters no release,
      whether or not an exception ends it. */
  lemma {:induction false} FaithfulExactly(slots: Slots, op: Op, live: map<nat, Issue>)
    requires Matches(slots, live)
    ensures Faithful(live, Perform(slots, op).trace) <==> !Reenters(slots, op)
    decreases op
  {
    match op
    case Buffer(held) =>
      BufferingMatches(slots, held, live);
      One(live, Issued(FreeSlot(slots) + 1, held));
    case Release(id, actions) =>
      One(live, Refused(id));
      if CarriedOut(slots, id) {
        var yielding := Step(live, Yielded(id, slots[id - 1].value));
        AllFaithfulExactly(slots, actions, yielding);
        ReleaseTrace(slots, id, actions, live);
        AnyRaisesExactly(slots, actions);
        if ReleasesAny(slots, actions, id) {
          if !PerformAll(slots, actions).raised { AnyReleasedIsNotRunning(slots, actions, yielding, id); }
        } else {
          RunningUntilAnyReleases(slots, actions, yielding, id);
        }
      }
  }

  lemma {:induction false} AllFaithfulExactly(slots: Slots, ops: seq<Op>, live: map<nat, Issue>)
    requires Matches(slots, live)
    ensures Faithful(live, PerformAll(slots, ops).trace) <==> !ReentersAny(slots, ops)
    decreases ops
  {
    if ops != [] {
      var first := Perform(slots, ops[0]);
      RaisesExactly(slots, ops[0]);
      FaithfulExactly(slots, ops[0], live);
      TraceMatches(slots, ops[0], live);
      if !first.raised {
        AllFaithfulExactly(first.slots, ops[1..], After(live, first.trace));
        Joined(live, first.trace, PerformAll(first.slots, ops[1..]).trace);
      }
    }
  }

  /** Over every run the buffer is faithful exactly when no release is re-entered: then no packet
      that is out is overwritten or dropped before it was yielded, ids that are out are
      distinct, and an id yields the packet it was issued for. */
  lemma RunsAreFaithful(ops: seq<Op>)
    ensures Faithful(map[], PerformAll([], ops).trace) <==> !ReentersAny([], ops)
    ensures Matches(PerformAll([], ops).slots, After(map[], PerformAll([], ops).trace))
  {
    AllFaithfulExactly([], ops, map[]);
    TracesMatch([], ops, map[]);
  }

  /** Re-entering can lose a packet: released within its own release, an id is issued again for
      q, and the outer release then clears q's slot without q having been yielded. */
  lemma ReenteringLosesAPacket(p: Held, q: Held)
    ensures var out := PerformAll([], [Buffer(p), Release(1, [Release(1, []), Buffer(q)])]);
            out.slots == [None] &&
            out.trace == [Issued(1, p), Yielded(1, p), Yielded(1, p), Cleared(1), Issued(1, q), Cleared(1)]
  {
    var nested := [Release(1, []), Buffer(q)];
    var ops := [Buffer(p), Release(1, nested)];
    assert Perform([], Buffer(p)) == Outcome([Some(p)], [Issued(1, p)], false);
    Two([Some(p)], Release(1, []), Buffer(q));
    assert PerformAll([Some(p)], []) == Outcome([Some(p)], [], false);
    assert Perform([Some(p)], Release(1, [])) == Outcome([None], [Yielded(1, p)] + [] + [Cleared(1)], false);
    assert Perform([None], Buffer(q)) == Outcome([Some(q)], [Issued(1, q)], false);
    assert PerformAll([Some(p)], nested) == Outcome([Some(q)], [Yielded(1, p), Cleared(1), Issued(1, q)], false);
    Two([], Buffer(p), Release(1, nested));
  }

  lemma Two(slots: Slots, a: Op, b: Op)
    requires !Perform(slots, a).raised
    ensures var x := Perform(slots, a);
            var y := Perform(x.slots, b);
            PerformAll(slots, [a, b]) == Outcome(y.slots, x.trace + y.trace, y.raised)
  {
    var x := Perform(slots, a);
    assert [a, b][1..] == [b] && [b][1..] == [];
    assert PerformAll(x.slots, [b]).trace == Perform(x.slots, b).trace;
  }

  /** The id just past the end of an empty list raises instead of being refused. */
  lemma JustPastTheEndRaises()
    ensures Perform([], Release(1, [])).raised && Perform([], Release(2, [])).trace == [Refused(2)]
  {
  }

  /** Every id that a release names, at any depth, is at most n. */
  predicate IdsUpTo(op: Op, n: nat)
    decreases op
  {
    op.Release? ==> op.id <= n && AllIdsUpTo(op.actions, n)
  }

  predicate AllIdsUpTo(ops: seq<Op>, n: nat)
    decreases ops
  {
    ops == [] || (IdsUpTo(ops[0], n) && AllIdsUpTo(ops[1..], n))
  }

  /** Ids that the list has room for never raise, in use or not. */
  lemma {:induction false} NeverRaises(slots: Slots, op: Op, n: nat)
    requires n <= |slots| && IdsUpTo(op, n)
    ensures !Perform(slots, op).raised
    decreases op
  {
    if op.Release? {
      NoneRaises(slots, op.actions, n);
    }
  }

  lemma {:induction false} NoneRaises(slots: Slots, ops: seq<Op>, n: nat)
    requires n <= |slots| && AllIdsUpTo(ops, n)
    ensures !PerformAll(slots, ops).raised
    decreases ops
  {
    if ops != [] {
      NeverRaises(slots, ops[0], n);
      NoneRaises(Perform(slots, ops[0]).slots, ops[1..], n);
    }
  }

  // ---------------------------------------------------------------- the object

  class PacketBuffer {
    var slots: Slots
    var trace: seq<Event>

    constructor ()
      ensures slots == [] && trace == []
    {
      slots, trace := [], [];
    }

    /** _buffer_packet */
    method BufferPacket(held: Held) returns (id: nat)
      modifies this
      ensures slots == Filled(old(slots), held) && id == FreeSlot(old(slots)) + 1
      ensures trace == old(trace) + [Issued(id, held)]
    {
      var i := 0;
      while i < |slots|
        invariant i <= FreeSlot(slots) <= |slots|
        invariant slots == old(slots) && trace == old(trace)
      {
        if slots[i].None? {
          slots := slots[i := Some(held)];
          trace := trace + [Issued(i + 1, held)];
          return i + 1;
        }
        i := i + 1;
      }
      slots := slots + [Some(held)];
      id := |slots|;
      trace := trace + [Issued(id, held)];
    }

    /** _process_actions_for_packet_from_buffer, guarded as its callers do. */
    method ReleaseFromBuffer(bufferId: nat, actions: seq<Op>) returns (raised: bool)
      modifies this
      ensures Outcome(slots, trace, raised) == Extend(old(trace), Perform(old(slots), Release(bufferId, actions)))
      decreases actions, 1
    {
      if bufferId == 0 { return false; }
      var k := bufferId - 1;
      if k > |slots| {
        trace := trace + [Refused(bufferId)];
        return false;
      }
      if k == |slots| { return true; }
      if slots[k].None? {
        trace := trace + [Refused(bufferId)];
        return false;
      }
      trace := trace + [Yielded(bufferId, slots[k].value)];
      raised := ProcessActions(actions);
      if !raised {
        slots := slots[k := None];
        trace := trace + [Cleared(bufferId)];
      }
    }

    method ProcessAction(op: Op) returns (raised: bool)
      modifies this
      ensures Outcome(slots, trace, raised) == Extend(old(trace), Perform(old(slots), op))
      decreases op, 1
    {
      match op {
        case Buffer(held) =>
          var _ := BufferPacket(held);
          raised := false;
        case Release(id, actions) =>
          raised := ReleaseFromBuffer(id, actions);
      }
    }

    /** What the actions, and everything they set off, ask of the buffer. */
    method ProcessActions(ops: seq<Op>) returns (raised: bool)
      modifies this
      ensures Outcome(slots, trace, raised) == Extend(old(trace), PerformAll(old(slots), ops))
      decreases ops, 0
    {
      if ops == [] { return false; }
      raised := ProcessAction(ops[0]);
      if !raised {
        ghost var first := Perform(old(slots), ops[0]);
        Regroup(old(trace), first.trace, PerformAll(first.slots, ops[1..]).trace);
        raised := ProcessActions(ops[1..]);
      }
    }
  }

  function Extend(before: seq<Event>, out: Outcome): Outcome { out.(trace := before + out.trace) }
}
