/** The flow-mod message and its wire form (class ofp_flow_mod). */
module FlowMods {
  import opened Options
  import opened Bytes
  import opened Matches
  import opened MatchWire
  import opened Actions

  /** bufferId is -1 for "no buffer". The length attribute is not kept: pack sets it. */
  datatype FlowMod = FlowMod(
    version: nat, headerType: nat, xid: nat, fmMatch: Match,
    cookie: nat, command: nat, idleTimeout: nat, hardTimeout: nat, priority: nat,
    bufferId: int, outPort: nat, flags: nat, actions: seq<Action>)

  const OF_HEADER: Layout := [1, 1, 2, 4]
  const BODY: Layout := [8, 2, 2, 2, 2, 4, 2, 2]
  const FIXED_LENGTH: nat := 72
  const NO_BUFFER: nat := 0xFFFF_FFFF

  /** buffer_id & 0xffffffff, and its reading back. */
  function WireBufferId(bufferId: int): nat { bufferId % 0x1_0000_0000 }
  function ReadBufferId(n: nat): int { if n == NO_BUFFER then -1 else n }

  function HeaderValues(fm: FlowMod, length: nat): seq<nat> {
    [fm.version, fm.headerType, length, fm.xid]
  }

  function BodyValues(fm: FlowMod): seq<nat> {
    [fm.cookie, fm.command, fm.idleTimeout, fm.hardTimeout, fm.priority, WireBufferId(fm.bufferId), fm.outPort,
     fm.flags]
  }

  /** __len__ */
  function LengthOfFlowMod(fm: FlowMod): nat
  {
    FIXED_LENGTH + ActionLengths(fm.actions)
  }

  function ActionLengths(actions: seq<Action>): nat {
    if actions == [] then 0 else LengthOf(actions[0]) + ActionLengths(actions[1..])
  }

  /** What packing asks for: a known message type, values that fit, actions of the map. */
  predicate Sendable(fm: FlowMod) {
    && fm.headerType <= 21
    && LengthOfFlowMod(fm) < 0x1_0000
    && Fits(OF_HEADER, HeaderValues(fm, LengthOfFlowMod(fm)))
    && Fits(BODY, BodyValues(fm))
    && Packable(fm.fmMatch)
    && AllWellFormed(fm.actions)
  }

  /** ofp_flow_mod.pack */
  function PackFlowMod(fm: FlowMod): seq<Byte>
    requires Sendable(fm)
  {
    Pack(OF_HEADER, HeaderValues(fm, LengthOfFlowMod(fm))) + PackMatch(fm.fmMatch) + Pack(BODY, BodyValues(fm))
    + PackActions(fm.actions)
  }

  datatype Unpacked = Unpacked(fm: FlowMod, rest: seq<Byte>) | TooShort | Failed

  /** ofp_flow_mod.unpack; rest is the returned remainder of the buffer. The final assertion
      compares the offset the action parser reached with the length in the header. */
  function UnpackFlowMod(b: seq<Byte>): Unpacked {
    if |b| < FIXED_LENGTH then TooShort
    else
      LayoutSizes();
      var h := Unpack(OF_HEADER, b);
      var parsed := ParseActions(b, h[2] as int - FIXED_LENGTH, FIXED_LENGTH);
      Assemble(h, UnpackMatch(b[8..]), Unpack(BODY, b[48..]), parsed, b)
  }

  function Assemble(h: seq<nat>, m: Match, v: seq<nat>, parsed: Parsed, b: seq<Byte>): Unpacked
    requires |h| == 4 && |v| == 8
  {
    match parsed
    case Crash => Failed
    case Parsed(actions, offset) =>
      if offset != h[2] || offset > |b| then Failed
      else Unpacked(FlowMod(h[0], h[1], h[3], m, v[0], v[1], v[2], v[3], v[4], ReadBufferId(v[5]), v[6], v[7], actions),
                    b[offset..])
  }

  lemma LayoutSizes()
    ensures Size(OF_HEADER) == 8 && Size(BODY) == 24
  {
  }

  /** The message a receiver sees: the match in normal form, max_len only towards the
      controller, and a buffer id that is all ones read as "no buffer". */
  function NormalFlowMod(fm: FlowMod): FlowMod {
    fm.(fmMatch := NormalForm(fm.fmMatch), actions := NormalActions(fm.actions),
        bufferId := ReadBufferId(WireBufferId(fm.bufferId)))
  }

  /** The buffer id survives exactly in the range -1 .. 2^32 - 2. */
  lemma BufferIdSurvives(bufferId: int)
    ensures ReadBufferId(WireBufferId(bufferId)) == bufferId <==> -1 <= bufferId < 0xFFFF_FFFF
  {
  }

  /** All ones is read as "no buffer". */
  lemma AllOnesIsNoBuffer()
    ensures ReadBufferId(WireBufferId(0xFFFF_FFFF)) == -1
  {
  }

  // ---------------------------------------------------------------- round trip

  lemma {:induction false} ActionLengthsArePacked(actions: seq<Action>)
    requires AllWellFormed(actions)
    ensures |PackActions(actions)| == ActionLengths(actions)
  {
    if actions != [] { ActionLengthsArePacked(actions[1..]); }
  }

  lemma {:induction false} NormalActionsAreWellFormed(actions: seq<Action>)
    requires AllWellFormed(actions)
    ensures AllWellFormed(NormalActions(actions))
    ensures NormalActions(NormalActions(actions)) == NormalActions(actions)
    ensures ActionLengths(NormalActions(actions)) == ActionLengths(actions)
  {
    if actions != [] {
      NormalIsWellFormed(actions[0]);
      NormalActionsAreWellFormed(actions[1..]);
      assert NormalActions(actions)[1..] == NormalActions(actions[1..]);
    }
  }

  /** The four parts of a message and what follows it. */
  lemma Parts(h: seq<Byte>, m: seq<Byte>, v: seq<Byte>, a: seq<Byte>, rest: seq<Byte>)
    requires |h| == 8 && |m| == 40 && |v| == 24
    ensures var b := h + m + v + a + rest;
      && b == h + (m + v + a + rest)
      && b[8..] == m + (v + a + rest)
      && b[48..] == v + (a + rest)
      && b[72..72 + |a|] == a
      && b[72 + |a|..] == rest
  {
  }

  lemma AssembleNormal(fm: FlowMod, h: seq<nat>, v: seq<nat>, length: nat, b: seq<Byte>, rest: seq<Byte>)
    requires h == HeaderValues(fm, length) && v == BodyValues(fm)
    requires length <= |b| && b[length..] == rest
    ensures Assemble(h, NormalForm(fm.fmMatch), v, Parsed(NormalActions(fm.actions), length), b)
         == Unpacked(NormalFlowMod(fm), rest)
  {
  }

  lemma ActionsRead(actions: seq<Action>, b: seq<Byte>, at: nat, length: nat)
    requires AllWellFormed(actions) && length == at + |PackActions(actions)| <= |b|
    requires b[at..length] == PackActions(actions)
    ensures ParseActions(b, length - at, at) == Parsed(NormalActions(actions), length)
  {
    ActionsRoundTrip(actions, b, at, length, []);
    assert [] + NormalActions(actions) == NormalActions(actions);
  }

  /** Unpacking a packed message, whatever follows it in the buffer, gives its normal form
      and the rest of the buffer. */
  lemma FlowModRoundTrip(fm: FlowMod, rest: seq<Byte>)
    requires Sendable(fm)
    ensures UnpackFlowMod(PackFlowMod(fm) + rest) == Unpacked(NormalFlowMod(fm), rest)
  {
    LayoutSizes();
    var length := LengthOfFlowMod(fm);
    var hv, bv := HeaderValues(fm, length), BodyValues(fm);
    var a := PackActions(fm.actions);
    ActionLengthsArePacked(fm.actions);
    ReadsBack(fm, Pack(OF_HEADER, hv), PackMatch(fm.fmMatch), Pack(BODY, bv), a, rest, length);
  }

  /** The same with the parts named. */
  lemma ReadsBack(fm: FlowMod, h: seq<Byte>, m: seq<Byte>, v: seq<Byte>, a: seq<Byte>, rest: seq<Byte>, length: nat)
    requires Sendable(fm) && length == LengthOfFlowMod(fm) == FIXED_LENGTH + |a|
    requires |h| == 8 && h == Pack(OF_HEADER, HeaderValues(fm, length)) && m == PackMatch(fm.fmMatch)
    requires |v| == 24 && v == Pack(BODY, BodyValues(fm)) && a == PackActions(fm.actions)
    ensures UnpackFlowMod(h + m + v + a + rest) == Unpacked(NormalFlowMod(fm), rest)
  {
    LayoutSizes();
    var b := h + m + v + a + rest;
    Parts(h, m, v, a, rest);
    UnpackPack(OF_HEADER, HeaderValues(fm, length), m + v + a + rest);
    UnpackPack(BODY, BodyValues(fm), a + rest);
    MatchRoundTrip(fm.fmMatch, v + a + rest);
    ActionsRead(fm.actions, b, FIXED_LENGTH, length);
    AssembleNormal(fm, HeaderValues(fm, length), BodyValues(fm), length, b, rest);
  }

  lemma NormalIsSendable(fm: FlowMod)
    requires Sendable(fm)
    ensures Sendable(NormalFlowMod(fm))
  {
    var n := NormalFlowMod(fm);
    NormalActionsAreWellFormed(fm.actions);
    NormalFormPackable(fm.fmMatch);
    BufferIdAgain(fm.bufferId);
    SameValues(fm, n);
  }

  lemma BufferIdAgain(bufferId: int)
    ensures WireBufferId(ReadBufferId(WireBufferId(bufferId))) == WireBufferId(bufferId)
    ensures ReadBufferId(WireBufferId(ReadBufferId(WireBufferId(bufferId)))) == ReadBufferId(WireBufferId(bufferId))
  {
  }

  lemma SameValues(fm: FlowMod, n: FlowMod)
    requires n == fm.(fmMatch := n.fmMatch, actions := n.actions, bufferId := n.bufferId)
    requires WireBufferId(n.bufferId) == WireBufferId(fm.bufferId)
    requires ActionLengths(n.actions) == ActionLengths(fm.actions)
    ensures BodyValues(n) == BodyValues(fm)
    ensures HeaderValues(n, LengthOfFlowMod(n)) == HeaderValues(fm, LengthOfFlowMod(fm))
  {
  }

  lemma NormalFlowModIdempotent(fm: FlowMod)
    requires AllWellFormed(fm.actions)
    ensures NormalFlowMod(NormalFlowMod(fm)) == NormalFlowMod(fm)
  {
    NormalActionsAreWellFormed(fm.actions);
    NormalFormIdempotent(fm.fmMatch);
    BufferIdAgain(fm.bufferId);
  }

  /** The received message can be sent again, and a second trip changes nothing. */
  lemma SecondTripIsIdentity(fm: FlowMod, rest: seq<Byte>)
    requires Sendable(fm)
    ensures Sendable(NormalFlowMod(fm))
    ensures UnpackFlowMod(PackFlowMod(NormalFlowMod(fm)) + rest) == Unpacked(NormalFlowMod(fm), rest)
  {
    NormalIsSendable(fm);
    NormalFlowModIdempotent(fm);
    FlowModRoundTrip(NormalFlowMod(fm), rest);
  }
}
