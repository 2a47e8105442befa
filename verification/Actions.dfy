/** Actions and their lists on the wire (the ofp_action classes and _unpack_actions). An
    action is its type, its length attribute, and the values of its remaining fields in wire
    order, padding included as zeros. */
module Actions {
  import opened Options
  import opened Bytes

  datatype Action = Action(typ: nat, length: nat, args: seq<nat>)

  const OUTPUT: nat := 0
  const SET_VLAN_VID: nat := 1
  const SET_VLAN_PCP: nat := 2
  const SET_DL_SRC: nat := 4
  const SET_DL_DST: nat := 5
  const SET_NW_SRC: nat := 6
  const SET_NW_DST: nat := 7
  const SET_NW_TOS: nat := 8
  const SET_TP_SRC: nat := 9
  const SET_TP_DST: nat := 10
  const ENQUEUE: nat := 11
  const SET_MPLS_LABEL: nat := 13
  const SET_MPLS_TC: nat := 14
  const SET_MPLS_TTL: nat := 15
  const DEC_MPLS_TTL: nat := 16
  const PUSH_MPLS: nat := 19
  const POP_MPLS: nat := 20
  const RESUBMIT: nat := 21

  const PORT_CONTROLLER: nat := 0xFFFD

  /** _action_map: the types that have a class of their own; strip_vlan (3), 12, 17 and 18
      are not among them. */
  predicate InActionMap(typ: nat) {
    (typ <= ENQUEUE && typ != 3) || SET_MPLS_LABEL <= typ <= DEC_MPLS_TTL || PUSH_MPLS <= typ <= RESUBMIT
  }

  /** The field layouts behind type and length. */
  datatype Shape = TwoShorts | ShortAndPad | ByteAndPad | AddressAndPad | OneLong | QueueShape | PadOnly

  /** Every class but output pads; the generic header (also used by dec_mpls_ttl, resubmit and
      unknown types) is padding only. */
  function ShapeOf(typ: nat): Shape {
    if typ == OUTPUT then TwoShorts
    else if typ == SET_VLAN_VID || typ == SET_TP_SRC || typ == SET_TP_DST then ShortAndPad
    else if typ == PUSH_MPLS || typ == POP_MPLS then ShortAndPad
    else if typ == SET_VLAN_PCP || typ == SET_NW_TOS || typ == SET_MPLS_TC || typ == SET_MPLS_TTL then ByteAndPad
    else if typ == SET_DL_SRC || typ == SET_DL_DST then AddressAndPad
    else if typ == SET_NW_SRC || typ == SET_NW_DST || typ == SET_MPLS_LABEL then OneLong
    else if typ == ENQUEUE then QueueShape
    else PadOnly
  }

  function SlotsOf(s: Shape): Layout {
    match s
    case TwoShorts => [2, 2]
    case ShortAndPad => [2, 2]
    case ByteAndPad => [1, 3]
    case AddressAndPad => [6, 6]
    case OneLong => [4]
    case QueueShape => [2, 6, 4]
    case PadOnly => [4]
  }

  function Slots(typ: nat): Layout { SlotsOf(ShapeOf(typ)) }

  /** Padding is written as zeros and ignored when read. */
  function ClearPadding(s: Shape, values: seq<nat>): (r: seq<nat>)
    requires |values| == |SlotsOf(s)|
    ensures |r| == |values|
  {
    match s
    case TwoShorts => values
    case OneLong => values
    case PadOnly => [0]
    case _ => values[1 := 0]
  }

  /** The bytes a class reads and writes. */
  function ClassSize(typ: nat): (r: nat)
    ensures r == 4 + Size(Slots(typ)) && (r == 8 || r == 16)
  {
    assert Size([2, 2]) == Size([1, 3]) == 4 && Size([6, 6]) == Size([2, 6, 4]) == 12 && Size([4]) == 4;
    if ShapeOf(typ).AddressAndPad? || ShapeOf(typ).QueueShape? then 16 else 8
  }

  /** Classes whose __len__ is the length attribute instead of a constant: the MPLS classes and
      the generic header. */
  predicate LengthIsAttribute(typ: nat) {
    typ >= SET_MPLS_LABEL || !InActionMap(typ)
  }

  function LengthOf(a: Action): nat {
    if LengthIsAttribute(a.typ) then a.length else ClassSize(a.typ)
  }

  /** An action of the map as its constructor builds it, with values that fit. */
  predicate WellFormed(a: Action) {
    && InActionMap(a.typ) && a.length == ClassSize(a.typ)
    && Fits(Slots(a.typ), a.args)
    && ClearPadding(ShapeOf(a.typ), a.args) == a.args
    && (a.typ == PUSH_MPLS ==> a.args[0] == 0x8847 || a.args[0] == 0x8848)
  }

  /** pack changes one thing in the object: max_len only survives towards the controller. */
  function Normal(a: Action): Action {
    if a.typ == OUTPUT && |a.args| == 2 && a.args[0] != PORT_CONTROLLER then a.(args := [a.args[0], 0]) else a
  }

  lemma NormalIsWellFormed(a: Action)
    requires WellFormed(a)
    ensures WellFormed(Normal(a)) && Normal(Normal(a)) == Normal(a)
  {
  }

  const HEADER: Layout := [2, 2]

  function PackAction(a: Action): (r: seq<Byte>)
    requires WellFormed(a)
    ensures |r| == ClassSize(a.typ)
  {
    Pack(HEADER, [a.typ, a.length]) + Pack(Slots(a.typ), Normal(a).args)
  }

  predicate AllWellFormed(actions: seq<Action>) {
    actions == [] || (WellFormed(actions[0]) && AllWellFormed(actions[1..]))
  }

  function PackActions(actions: seq<Action>): seq<Byte>
    requires AllWellFormed(actions)
  {
    if actions == [] then [] else PackAction(actions[0]) + PackActions(actions[1..])
  }

  function NormalActions(actions: seq<Action>): (r: seq<Action>)
    ensures |r| == |actions|
  {
    if actions == [] then [] else [Normal(actions[0])] + NormalActions(actions[1..])
  }

  /** a.unpack on a slice of exactly its announced length. */
  function UnpackAction(typ: nat, length: nat, slice: seq<Byte>): Action
    requires |slice| >= ClassSize(typ)
  {
    Action(typ, length, ClearPadding(ShapeOf(typ), Unpack(Slots(typ), slice[4..])))
  }

  /** Whether `assert len(a) == l` holds after unpacking l bytes. */
  predicate Accepts(typ: nat, length: nat) {
    if LengthIsAttribute(typ) then length >= ClassSize(typ) else length == ClassSize(typ)
  }

  datatype Parsed = Parsed(actions: seq<Action>, offset: nat) | Crash

  /** One turn of the loop of _unpack_actions: the next action and where it ends, a buffer that
      ends inside the action, or an exception (the buffer ends inside the header, or the class
      does not have the announced length). */
  datatype Turn = Next(action: Action, offset: nat) | CutOff | Raised

  function ParseOne(b: seq<Byte>, offset: nat): (r: Turn)
    requires offset <= |b|
    ensures r.Next? ==> offset + 8 <= r.offset <= |b|
  {
    if |b| - offset < 4 then Raised
    else
      var (typ, length) := HeaderAt(b, offset);
      if |b| - offset < length then CutOff
      else if !Accepts(typ, length) then Raised
      else Next(UnpackAction(typ, length, b[offset..offset + length]), offset + length)
  }

  /** The whole loop, from an offset with the actions found so far. A cut-off action empties
      the list. */
  function ParseFrom(b: seq<Byte>, offset: nat, end: nat, found: seq<Action>): Parsed
    requires offset <= |b|
    decreases end - offset
  {
    if offset >= end then Parsed(found, offset)
    else
      match ParseOne(b, offset)
      case Raised => Crash
      case CutOff => Parsed([], offset)
      case Next(action, next) => ParseFrom(b, next, end, found + [action])
  }

  function HeaderAt(b: seq<Byte>, offset: nat): (nat, nat)
    requires offset + 4 <= |b|
  {
    (Short(b[offset], b[offset + 1]), Short(b[offset + 2], b[offset + 3]))
  }

  function Short(high: nat, low: nat): nat { 256 * high + low }

  /** _unpack_actions(b, length, offset) */
  function ParseActions(b: seq<Byte>, length: int, offset: nat): Parsed
    requires offset <= |b|
  {
    if |b| - offset < length then Parsed([], offset)
    else if length < 0 then Parsed([], offset)
    else ParseFrom(b, offset, length + offset, [])
  }

  method UnpackActions(b: seq<Byte>, length: int, offset: nat) returns (r: Parsed)
    requires offset <= |b|
    ensures r == ParseActions(b, length, offset)
  {
    if |b| - offset < length { return Parsed([], offset); }
    var actions := [];
    var at, end := offset, length + offset;
    while at < end
      invariant offset <= at <= |b|
      invariant length >= 0 ==> ParseFrom(b, at, end, actions) == ParseActions(b, length, offset)
      invariant length < 0 ==> at == offset && actions == []
      decreases end - at
    {
      match ParseOne(b, at)
      case Raised => return Crash;
      case CutOff => return Parsed([], at);
      case Next(action, next) =>
        actions := actions + [action];
        at := next;
    }
    return Parsed(actions, at);
  }

  // ---------------------------------------------------------------- round trip

  lemma HeaderRoundTrip(typ: nat, length: nat, rest: seq<Byte>)
    requires typ < 0x1_0000 && length < 0x1_0000
    ensures var b := Pack(HEADER, [typ, length]) + rest;
      |b| >= 4 && HeaderAt(b, 0) == (typ, length) && b[4..] == rest
  {
    assert BigEndian(typ, 2) == [typ / 256, typ % 256];
    assert BigEndian(length, 2) == [length / 256, length % 256];
    assert Pack(HEADER, [typ, length]) == BigEndian(typ, 2) + BigEndian(length, 2);
  }

  /** One action, packed and read back. */
  lemma ActionRoundTrip(a: Action)
    requires WellFormed(a)
    ensures HeaderAt(PackAction(a), 0) == (a.typ, a.length)
    ensures UnpackAction(a.typ, a.length, PackAction(a)) == Normal(a)
  {
    NormalIsWellFormed(a);
    var n := Normal(a);
    var args := Pack(Slots(a.typ), n.args);
    HeaderRoundTrip(a.typ, a.length, args);
    UnpackPack(Slots(a.typ), n.args, []);
    assert args + [] == args;
  }

  /** Parsing one action anywhere in a buffer. */
  lemma ParsePacked(a: Action, b: seq<Byte>, offset: nat)
    requires WellFormed(a)
    requires offset + |PackAction(a)| <= |b| && b[offset..offset + |PackAction(a)|] == PackAction(a)
    ensures ParseOne(b, offset) == Next(Normal(a), offset + |PackAction(a)|)
  {
    var first := PackAction(a);
    ActionRoundTrip(a);
    assert forall i :: 0 <= i < |first| ==> b[offset + i] == first[i];
  }

  lemma OneMore(b: seq<Byte>, offset: nat, end: nat, found: seq<Action>, action: Action, next: nat)
    requires offset < end && offset <= |b| && ParseOne(b, offset) == Next(action, next)
    ensures ParseFrom(b, offset, end, found) == ParseFrom(b, next, end, found + [action])
  {
  }

  lemma SplitSlice(b: seq<Byte>, offset: nat, first: seq<Byte>, later: seq<Byte>)
    requires offset + |first + later| <= |b| && b[offset..offset + |first + later|] == first + later
    ensures b[offset..offset + |first|] == first
    ensures b[offset + |first|..offset + |first| + |later|] == later
  {
    var both := b[offset..offset + |first + later|];
    assert b[offset..offset + |first|] == both[..|first|];
    assert b[offset + |first|..offset + |first| + |later|] == both[|first|..];
  }

  lemma FirstParses(a: Action, later: seq<Byte>, b: seq<Byte>, offset: nat, end: nat, found: seq<Action>)
    requires WellFormed(a) && end == offset + |PackAction(a) + later| <= |b| && b[offset..end] == PackAction(a) + later
    ensures var next := offset + |PackAction(a)|;
      && next + |later| == end && b[next..end] == later
      && ParseFrom(b, offset, end, found) == ParseFrom(b, next, end, found + [Normal(a)])
  {
    SplitSlice(b, offset, PackAction(a), later);
    ParsePacked(a, b, offset);
    OneMore(b, offset, end, found, Normal(a), offset + |PackAction(a)|);
  }

  lemma Append(found: seq<Action>, a: Action, later: seq<Action>)
    ensures (found + [a]) + later == found + ([a] + later) && found + [] == found
  {
  }

  /** A packed list, anywhere in a buffer, reads back as the list with normal max_len fields. */
  lemma {:induction false} ActionsRoundTrip(actions: seq<Action>, b: seq<Byte>, offset: nat, end: nat,
                                            found: seq<Action>)
    requires AllWellFormed(actions)
    requires end == offset + |PackActions(actions)| <= |b| && b[offset..end] == PackActions(actions)
    ensures ParseFrom(b, offset, end, found) == Parsed(found + NormalActions(actions), end)
    decreases |actions|
  {
    if actions == [] {
      Append(found, Action(0, 0, []), []);
    } else {
      var a, next := actions[0], offset + |PackAction(actions[0])|;
      FirstParses(a, PackActions(actions[1..]), b, offset, end, found);
      ActionsRoundTrip(actions[1..], b, next, end, found + [Normal(a)]);
      Append(found, Normal(a), NormalActions(actions[1..]));
    }
  }
}
