/** Where every field of a match, a flow mod and an action is on the wire (section 5 of the
    OpenFlow Switch Specification 1.0.0), by octet numbers and bit values. */
module WireLayouts {
  import opened Options
  import opened Bytes
  import opened Matches
  import opened MatchWire
  import opened Actions
  import opened FlowMods

  /** The value of the octets from one offset up to another. */
  function At(b: seq<Byte>, from: nat, to: nat): nat
    requires from <= to <= |b|
  {
    Number(b[from..to])
  }

  /** Field number k of a layout, with the running sums of its widths. */
  lemma ReadField(l: Layout, at: seq<nat>, b: seq<Byte>, k: nat)
    requires BeginAt(l, at) && Size(l) <= |b| && k < |l|
    ensures at[k] + l[k] <= |b| && Unpack(l, b)[k] == At(b, at[k], at[k] + l[k])
  {
    OffsetIs(l, at, k);
    OffsetsGrow(l, k + 1);
    UnpackedAt(l, b, k, at[k], b[at[k]..at[k] + l[k]]);
  }

  // ---------------------------------------------------------------- the match

  const MATCH_OFFSETS: seq<nat> := [0, 4, 6, 12, 18, 20, 21, 22, 24, 25, 26, 28, 32, 36, 38]

  lemma MatchLayout()
    ensures LAYOUT == [4, 2, 6, 6, 2, 1, 1, 2, 1, 1, 2, 4, 4, 2, 2]
  {
    assert LINK_FIELDS + TAG_FIELDS == [4, 2, 6, 6, 2, 1, 1, 2];
    assert LINK_FIELDS + TAG_FIELDS + NETWORK_FIELDS == [4, 2, 6, 6, 2, 1, 1, 2, 1, 1, 2, 4];
  }

  lemma MatchFieldsBegin()
    ensures BeginAt(LAYOUT, MATCH_OFFSETS)
  {
    MatchLayout();
    var l, at := LAYOUT, MATCH_OFFSETS;
    forall i | 1 <= i < 15 ensures at[i] == at[i - 1] + l[i - 1] {}
  }

  /** The fields of a match on the wire (section 5.2.3 of that specification). */
  datatype WireMatch = WireMatch(
    wildcards: nat, inPort: nat, dlSrc: nat, dlDst: nat, dlVlan: nat, dlVlanPcp: nat, pad1: nat, dlType: nat,
    nwTos: nat, nwProto: nat, pad2: nat, nwSrc: nat, nwDst: nat, tpSrc: nat, tpDst: nat)

  /** Their octets. */
  function MatchAt(b: seq<Byte>): WireMatch
    requires |b| >= 40
  {
    WireMatch(At(b, 0, 4), At(b, 4, 6), At(b, 6, 12), At(b, 12, 18), At(b, 18, 20), At(b, 20, 21), At(b, 21, 22),
              At(b, 22, 24), At(b, 24, 25), At(b, 25, 26), At(b, 26, 28), At(b, 28, 32), At(b, 32, 36), At(b, 36, 38),
              At(b, 38, 40))
  }

  function AsWireMatch(v: seq<nat>): WireMatch
    requires |v| == 15
  {
    WireMatch(v[0], v[1], v[2], v[3], v[4], v[5], v[6], v[7], v[8], v[9], v[10], v[11], v[12], v[13], v[14])
  }

  lemma MatchOctets(b: seq<Byte>)
    requires |b| >= 40
    ensures Size(LAYOUT) <= |b| && |Unpack(LAYOUT, b)| == 15
    ensures AsWireMatch(Unpack(LAYOUT, b)) == MatchAt(b)
  {
    LayoutSize();
    MatchLayout();
    MatchFieldsBegin();
    MatchField(b, 0, 0, 4);
    MatchField(b, 1, 4, 6);
    MatchField(b, 2, 6, 12);
    MatchField(b, 3, 12, 18);
    MatchField(b, 4, 18, 20);
    MatchField(b, 5, 20, 21);
    MatchField(b, 6, 21, 22);
    MatchField(b, 7, 22, 24);
    MatchField(b, 8, 24, 25);
    MatchField(b, 9, 25, 26);
    MatchField(b, 10, 26, 28);
    MatchField(b, 11, 28, 32);
    MatchField(b, 12, 32, 36);
    MatchField(b, 13, 36, 38);
    MatchField(b, 14, 38, 40);
  }

  lemma MatchField(b: seq<Byte>, k: nat, from: nat, to: nat)
    requires 40 <= |b| && k < 15 == |LAYOUT| && from <= to <= 40 && Size(LAYOUT) == 40
    requires BeginAt(LAYOUT, MATCH_OFFSETS) && from == MATCH_OFFSETS[k] && to == from + LAYOUT[k]
    ensures Unpack(LAYOUT, b)[k] == At(b, from, to)
  {
    ReadField(LAYOUT, MATCH_OFFSETS, b, k);
  }

  /** The bit of this value is set in a number. */
  predicate IsSet(n: nat, value: nat)
    requires value > 0
  {
    n / value % 2 == 1
  }

  lemma HalfFirst(n: nat, p: nat)
    requires p > 0
    ensures n / 2 / p == n / (2 * p)
  {
    var q, r := n / (2 * p), n % (2 * p);
    Powers.DivMod(n, 2 * p);
    assert n / 2 == q * p + r / 2;
    Powers.ModIsUnique(n / 2, q, p, r / 2);
  }

  lemma {:induction false} BitIn(n: nat, lo: nat, hi: nat, i: nat)
    requires lo <= hi
    ensures i in BitsOf(n, lo, hi) <==> lo <= i < hi && IsSet(n, Powers.Pow2(i - lo))
    decreases hi - lo
  {
    if lo < hi {
      BitIn(n / 2, lo + 1, hi, i);
      if i > lo { HalfFirst(n, Powers.Pow2(i - lo - 1)); }
    }
  }

  lemma LowBits(n: nat)
    ensures IsSet(n % 256, 1) == IsSet(n, 1) && IsSet(n % 256, 2) == IsSet(n, 2) && IsSet(n % 256, 4) == IsSet(n, 4)
    ensures IsSet(n % 256, 8) == IsSet(n, 8) && IsSet(n % 256, 16) == IsSet(n, 16)
    ensures IsSet(n % 256, 32) == IsSet(n, 32) && IsSet(n % 256, 64) == IsSet(n, 64)
    ensures IsSet(n % 256, 128) == IsSet(n, 128)
  {
    LowBit(n, 1, 128);
    LowBit(n, 2, 64);
    LowBit(n, 4, 32);
    LowBit(n, 8, 16);
    LowBit(n, 16, 8);
    LowBit(n, 32, 4);
    LowBit(n, 64, 2);
    LowBit(n, 128, 1);
  }

  lemma LowBit(n: nat, p: nat, k: nat)
    requires p > 0 && p * (2 * k) == 256
    ensures IsSet(n % 256, p) == IsSet(n, p)
  {
    var q, r := n / 256, n % 256;
    Powers.DivMod(n, 256);
    Powers.DivMod(r, p);
    Powers.Regroup(q, 2 * k, p, r / p);
    Powers.ModIsUnique(n, q * (2 * k) + r / p, p, r % p);
    EvenMore(q * k, r / p);
    assert q * (2 * k) == 2 * (q * k);
  }

  lemma EvenMore(x: nat, y: nat)
    ensures (2 * x + y) % 2 == y % 2
  {
  }

  lemma HighBits(n: nat)
    ensures IsSet(n / 0x10_0000, 1) == IsSet(n, 0x10_0000) && IsSet(n / 0x10_0000, 2) == IsSet(n, 0x20_0000)
  {
  }

  lemma SmallPowersOfTwo()
    ensures Powers.Pow2(0) == 1 && Powers.Pow2(1) == 2 && Powers.Pow2(2) == 4 && Powers.Pow2(3) == 8
    ensures Powers.Pow2(4) == 16 && Powers.Pow2(5) == 32 && Powers.Pow2(6) == 64 && Powers.Pow2(7) == 128
  {
  }

  /** The value of the wildcard bit of a field. */
  function WildcardValue(f: Field): nat
    requires !IsNetwork(f)
  {
    match f
    case InPort => 0x1
    case DlVlan => 0x2
    case DlSrc => 0x4
    case DlDst => 0x8
    case DlType => 0x10
    case NwProto => 0x20
    case TpSrc => 0x40
    case TpDst => 0x80
    case DlVlanPcp => 0x10_0000
    case NwTos => 0x20_0000
  }

  lemma DecodedBit(n: nat, f: Field)
    requires !IsNetwork(f)
    ensures Bit(f) in Decode(n).bits <==> IsSet(n, WildcardValue(f))
  {
    SmallPowersOfTwo();
    if Bit(f) < 8 {
      LowBits(n);
      BitIn(n % 256, 0, 8, Bit(f));
    } else {
      HighBits(n);
      BitIn(n / 0x10_0000, 20, 32, Bit(f));
    }
  }

  /** What a field shows whose wildcard bit has this value. */
  function Shown(word: nat, value: nat, x: nat): Option<nat>
    requires value > 0
  {
    if IsSet(word, value) then None else Some(x)
  }

  function ShownNetwork(count: nat, x: nat): Prefix { if count >= 32 then Anything else Net(x, count) }

  predicate HasPorts(proto: Option<nat>) { proto in {Some(1), Some(6), Some(17)} }

  /** What a match read from these fields shows, one by one. */
  ghost predicate ReadsAs(w: WireMatch, m: Match) { ReadsLinkAs(w, m) && ReadsNetworkAs(w, m) }

  ghost predicate ReadsLinkAs(w: WireMatch, m: Match) {
    && Get(m, InPort) == Shown(w.wildcards, 0x1, w.inPort)
    && Get(m, DlVlan) == Shown(w.wildcards, 0x2, w.dlVlan)
    && Get(m, DlSrc) == Shown(w.wildcards, 0x4, w.dlSrc)
    && Get(m, DlDst) == Shown(w.wildcards, 0x8, w.dlDst)
    && Get(m, DlType) == Shown(w.wildcards, 0x10, w.dlType)
    && Get(m, DlVlanPcp) == Shown(w.wildcards, 0x10_0000, w.dlVlanPcp)
  }

  /** Behind a type that is not IP the fields of IP are wildcarded, behind one that is not ARP either
      all network fields, and the transport fields behind a protocol other than ICMP, TCP and UDP. */
  ghost predicate ReadsNetworkAs(w: WireMatch, m: Match) {
    var ip, network := w.dlType == 0x0800, w.dlType == 0x0800 || w.dlType == 0x0806;
    var ports := ip && HasPorts(Some(w.nwProto));
    && Get(m, NwProto) == (if network then Shown(w.wildcards, 0x20, w.nwProto) else None)
    && Get(m, TpSrc) == (if ports then Shown(w.wildcards, 0x40, w.tpSrc) else None)
    && Get(m, TpDst) == (if ports then Shown(w.wildcards, 0x80, w.tpDst) else None)
    && Get(m, NwTos) == (if ip then Shown(w.wildcards, 0x20_0000, w.nwTos) else None)
    && GetNetwork(m, NwSrc) == (if network then ShownNetwork(w.wildcards / 0x100 % 64, w.nwSrc) else Anything)
    && GetNetwork(m, NwDst) == (if network then ShownNetwork(w.wildcards / 0x4000 % 64, w.nwDst) else Anything)
  }

  lemma ReadShown(v: seq<nat>, f: Field)
    requires |v| == 15 && !IsNetwork(f)
    ensures Get(FromWire(v), f) == if IgnoredFor(Some(v[7]), Some(v[9]), f) then None
                                   else Shown(v[0], WildcardValue(f), v[Place(f)])
  {
    ValueAt(v, f);
    DecodedBit(v[0], f);
  }

  lemma ReadNetwork(v: seq<nat>, f: Field)
    requires |v| == 15 && IsNetwork(f)
    ensures var count := if f == NwSrc then v[0] / 0x100 % 64 else v[0] / 0x4000 % 64;
      GetNetwork(FromWire(v), f) == if IgnoredFor(Some(v[7]), Some(v[9]), f) then Anything
                                    else ShownNetwork(count, v[Place(f)])
  {
    ValueAt(v, f);
  }

  /** Reading the fields of a match. */
  lemma FromWireShows(v: seq<nat>)
    requires |v| == 15
    ensures ReadsAs(AsWireMatch(v), FromWire(v))
  {
    FromWireShowsLink(v);
    FromWireShowsNetwork(v);
  }

  lemma FromWireShowsLink(v: seq<nat>)
    requires |v| == 15
    ensures ReadsLinkAs(AsWireMatch(v), FromWire(v))
  {
    ReadShown(v, InPort);
    ReadShown(v, DlVlan);
    ReadShown(v, DlSrc);
    ReadShown(v, DlDst);
    ReadShown(v, DlType);
    ReadShown(v, DlVlanPcp);
  }

  lemma FromWireShowsNetwork(v: seq<nat>)
    requires |v| == 15
    ensures ReadsNetworkAs(AsWireMatch(v), FromWire(v))
  {
    ReadShown(v, NwProto);
    ReadShown(v, TpSrc);
    ReadShown(v, TpDst);
    ReadShown(v, NwTos);
    ReadNetwork(v, NwSrc);
    ReadNetwork(v, NwDst);
  }

  /** A match is read from the octets of its fields. */
  lemma UnpackedMatch(b: seq<Byte>)
    requires |b| >= 40
    ensures ReadsAs(MatchAt(b), UnpackMatch(b))
  {
    MatchOctets(b);
    FromWireShows(Unpack(LAYOUT, b));
  }

  /** The value that stands for a field on the wire. */
  function Written(meant: bool, value: Option<nat>): nat {
    if meant && value.Some? then value.value else 0
  }

  /** The fields of a match that is written: what the protocol gives a meaning, and zeros for what
      is wildcarded or has none. */
  ghost predicate IsWritten(m: Match, w: WireMatch) {
    var ip := Get(m, DlType) == Some(0x0800);
    var network, ports := ip || Get(m, DlType) == Some(0x0806), ip && HasPorts(Get(m, NwProto));
    && w.inPort == Written(true, Get(m, InPort))
    && w.dlSrc == Written(true, Get(m, DlSrc))
    && w.dlDst == Written(true, Get(m, DlDst))
    && w.dlVlan == Written(true, Get(m, DlVlan))
    && w.dlVlanPcp == Written(true, Get(m, DlVlanPcp))
    && w.dlType == Written(true, Get(m, DlType))
    && w.nwTos == Written(ip, Get(m, NwTos))
    && w.nwProto == Written(network, Get(m, NwProto))
    && w.nwSrc == Written(network, Get(m, NwSrc))
    && w.nwDst == Written(network, Get(m, NwDst))
    && w.tpSrc == Written(ports, Get(m, TpSrc))
    && w.tpDst == Written(ports, Get(m, TpDst))
    && w.pad1 == w.pad2 == 0
  }

  /** Its wildcard word: a bit is set for a field that has a meaning and is wildcarded, and there
      are the numbers of ignored address bits. */
  ghost predicate IsWildcardWord(m: Match, word: nat) { HasLinkBits(m, word) && HasNetworkBits(m, word) }

  ghost predicate HasLinkBits(m: Match, word: nat) {
    && (IsSet(word, 0x1) <==> Get(m, InPort).None?)
    && (IsSet(word, 0x2) <==> Get(m, DlVlan).None?)
    && (IsSet(word, 0x4) <==> Get(m, DlSrc).None?)
    && (IsSet(word, 0x8) <==> Get(m, DlDst).None?)
    && (IsSet(word, 0x10) <==> Get(m, DlType).None?)
    && (IsSet(word, 0x10_0000) <==> Get(m, DlVlanPcp).None?)
  }

  ghost predicate HasNetworkBits(m: Match, word: nat) {
    var ip := Get(m, DlType) == Some(0x0800);
    var network, ports := ip || Get(m, DlType) == Some(0x0806), ip && HasPorts(Get(m, NwProto));
    && (IsSet(word, 0x20) <==> network && Get(m, NwProto).None?)
    && (IsSet(word, 0x40) <==> ports && Get(m, TpSrc).None?)
    && (IsSet(word, 0x80) <==> ports && Get(m, TpDst).None?)
    && (IsSet(word, 0x20_0000) <==> ip && Get(m, NwTos).None?)
    && IsCount(GetNetwork(m, NwSrc), network, word / 0x100 % 64)
    && IsCount(GetNetwork(m, NwDst), network, word / 0x4000 % 64)
  }

  predicate IsCount(n: Prefix, meant: bool, count: nat) {
    if !meant then count == 0 else if n.Anything? then count >= 32 else count == n.ignored
  }

  lemma ValuesAreWritten(word: nat, m: Match)
    ensures var w := AsWireMatch(FieldValues(word, m)); w.wildcards == word && IsWritten(m, w)
  {
  }

  lemma WireBit(m: Match, word: nat, f: Field)
    requires Decode(word) == WireWildcards(m) && !IsNetwork(f)
    ensures IsSet(word, WildcardValue(f)) <==> Get(m, f).None? && !Ignored(m, f)
  {
    DecodedBit(word, f);
  }

  lemma WireCount(m: Match, word: nat)
    requires Decode(word) == WireWildcards(m)
    ensures IsCount(GetNetwork(m, NwSrc), !Ignored(m, NwSrc), word / 0x100 % 64)
    ensures IsCount(GetNetwork(m, NwDst), !Ignored(m, NwDst), word / 0x4000 % 64)
  {
    assert Decode(word).srcCount == word / 256 % 64 && Decode(word).dstCount == word / 0x4000 % 64;
  }

  lemma LinkBitsAreRight(m: Match, word: nat)
    requires Decode(word) == WireWildcards(m)
    ensures HasLinkBits(m, word)
  {
    WireBit(m, word, InPort);
    WireBit(m, word, DlVlan);
    WireBit(m, word, DlSrc);
    WireBit(m, word, DlDst);
    WireBit(m, word, DlType);
    WireBit(m, word, DlVlanPcp);
  }

  lemma NetworkBitsAreRight(m: Match, word: nat)
    requires Decode(word) == WireWildcards(m)
    ensures HasNetworkBits(m, word)
  {
    WireBit(m, word, NwProto);
    WireBit(m, word, TpSrc);
    WireBit(m, word, TpDst);
    WireBit(m, word, NwTos);
    WireCount(m, word);
  }

  /** A match is written into the octets of its fields. */
  lemma PackedMatch(m: Match)
    requires Packable(m)
    ensures IsWritten(m, MatchAt(PackMatch(m))) && IsWildcardWord(m, MatchAt(PackMatch(m)).wildcards)
  {
    var b, word := PackMatch(m), Encode(WireWildcards(m));
    WireFits(m);
    UnpackPack(LAYOUT, WireValues(m), []);
    assert b + [] == b;
    MatchOctets(b);
    ValuesAreWritten(word, m);
    WordRoundTrip(m);
    DecodeEncode(WireWildcards(m));
    LinkBitsAreRight(m, word);
    NetworkBitsAreRight(m, word);
  }

  // ---------------------------------------------------------------- the flow mod

  /** The header of a message (section 5.1). */
  datatype WireHeader = WireHeader(version: nat, headerType: nat, length: nat, xid: nat)

  /** The fixed fields of a flow mod behind its match (section 5.3.3). */
  datatype WireBody = WireBody(cookie: nat, command: nat, idleTimeout: nat, hardTimeout: nat, priority: nat,
                               bufferId: nat, outPort: nat, flags: nat)

  function HeaderOf(b: seq<Byte>): WireHeader
    requires |b| >= 72
  {
    WireHeader(At(b, 0, 1), At(b, 1, 2), At(b, 2, 4), At(b, 4, 8))
  }

  function BodyOf(b: seq<Byte>): WireBody
    requires |b| >= 72
  {
    WireBody(At(b, 48, 56), At(b, 56, 58), At(b, 58, 60), At(b, 60, 62), At(b, 62, 64), At(b, 64, 68), At(b, 68, 70),
             At(b, 70, 72))
  }

  function AsWireHeader(h: seq<nat>): WireHeader
    requires |h| == 4
  {
    WireHeader(h[0], h[1], h[2], h[3])
  }

  function AsWireBody(v: seq<nat>): WireBody
    requires |v| == 8
  {
    WireBody(v[0], v[1], v[2], v[3], v[4], v[5], v[6], v[7])
  }

  const HEADER_OFFSETS: seq<nat> := [0, 1, 2, 4]
  const BODY_OFFSETS: seq<nat> := [0, 8, 10, 12, 14, 16, 20, 22]

  lemma FixedFieldsBegin()
    ensures BeginAt(OF_HEADER, HEADER_OFFSETS) && BeginAt(BODY, BODY_OFFSETS)
  {
  }

  lemma HeaderField(b: seq<Byte>, k: nat, from: nat, to: nat)
    requires 72 <= |b| && k < 4 && from == HEADER_OFFSETS[k] && to == from + OF_HEADER[k] && to <= 8
    requires Size(OF_HEADER) == 8 && BeginAt(OF_HEADER, HEADER_OFFSETS)
    ensures Unpack(OF_HEADER, b)[k] == At(b, from, to)
  {
    ReadField(OF_HEADER, HEADER_OFFSETS, b, k);
  }

  lemma BodyField(b: seq<Byte>, k: nat, from: nat, to: nat)
    requires 72 <= |b| && k < 8 && from == 48 + BODY_OFFSETS[k] && to == from + BODY[k] && to <= 72
    requires Size(BODY) == 24 && BeginAt(BODY, BODY_OFFSETS)
    ensures Unpack(BODY, b[48..])[k] == At(b, from, to)
  {
    ReadField(BODY, BODY_OFFSETS, b[48..], k);
    SliceOfRest(b, 48, from - 48, to - from);
  }

  lemma HeaderOctets(b: seq<Byte>)
    requires |b| >= 72 && Size(OF_HEADER) == 8
    ensures AsWireHeader(Unpack(OF_HEADER, b)) == HeaderOf(b)
  {
    FixedFieldsBegin();
    HeaderField(b, 0, 0, 1);
    HeaderField(b, 1, 1, 2);
    HeaderField(b, 2, 2, 4);
    HeaderField(b, 3, 4, 8);
  }

  lemma BodyOctets(b: seq<Byte>)
    requires |b| >= 72 && Size(BODY) == 24
    ensures AsWireBody(Unpack(BODY, b[48..])) == BodyOf(b)
  {
    FixedFieldsBegin();
    BodyField(b, 0, 48, 56);
    BodyField(b, 1, 56, 58);
    BodyField(b, 2, 58, 60);
    BodyField(b, 3, 60, 62);
    BodyField(b, 4, 62, 64);
    BodyField(b, 5, 64, 68);
    BodyField(b, 6, 68, 70);
    BodyField(b, 7, 70, 72);
  }

  /** The fields of a message, with a length and a buffer id as on the wire. */
  function WireHeaderFor(fm: FlowMod, length: nat): WireHeader {
    WireHeader(fm.version, fm.headerType, length, fm.xid)
  }

  function WireBodyFor(fm: FlowMod, bufferId: nat): WireBody {
    WireBody(fm.cookie, fm.command, fm.idleTimeout, fm.hardTimeout, fm.priority, bufferId, fm.outPort, fm.flags)
  }

  lemma AssembledFields(h: seq<nat>, m: Match, v: seq<nat>, parsed: Parsed, b: seq<Byte>)
    requires |h| == 4 && |v| == 8 && Assemble(h, m, v, parsed, b).Unpacked?
    ensures var u, wh, wb := Assemble(h, m, v, parsed, b), AsWireHeader(h), AsWireBody(v);
      && wh == WireHeaderFor(u.fm, wh.length) && wb == WireBodyFor(u.fm, wb.bufferId) && u.fm.fmMatch == m
      && u.fm.bufferId == (if wb.bufferId == 0xFFFF_FFFF then -1 else wb.bufferId)
      && parsed == Parsed(u.fm.actions, wh.length) && wh.length <= |b| && u.rest == b[wh.length..]
  {
  }

  /** A flow mod that is read: each field from its octets, the match from 8 on, the actions from 72
      up to the length, and what is behind that is left over. */
  lemma UnpackedFlowMod(b: seq<Byte>)
    ensures UnpackFlowMod(b).TooShort? <==> |b| < 72
    ensures UnpackFlowMod(b).Unpacked? ==>
      var fm, h, w := UnpackFlowMod(b).fm, HeaderOf(b), BodyOf(b);
      && h == WireHeaderFor(fm, h.length) && w == WireBodyFor(fm, w.bufferId) && ReadsAs(MatchAt(b[8..]), fm.fmMatch)
      && fm.bufferId == (if w.bufferId == 0xFFFF_FFFF then -1 else w.bufferId)
      && ParseActions(b, h.length - 72, 72) == Parsed(fm.actions, h.length)
      && h.length <= |b| && UnpackFlowMod(b).rest == b[h.length..]
  {
    if |b| >= 72 {
      UnpackIsAssembly(b);
      HeaderOctets(b);
      BodyOctets(b);
      UnpackedMatch(b[8..]);
      var h, v := Unpack(OF_HEADER, b), Unpack(BODY, b[48..]);
      if UnpackFlowMod(b).Unpacked? {
        AssembledFields(h, UnpackMatch(b[8..]), v, ParseActions(b, h[2] as int - 72, 72), b);
      }
    }
  }

  lemma UnpackIsAssembly(b: seq<Byte>)
    requires |b| >= 72
    ensures Size(OF_HEADER) == 8 && Size(BODY) == 24
    ensures var h, v := Unpack(OF_HEADER, b), Unpack(BODY, b[48..]);
      UnpackFlowMod(b) == Assemble(h, UnpackMatch(b[8..]), v, ParseActions(b, h[2] as int - 72, 72), b)
  {
    LayoutSizes();
  }

  /** A flow mod that is written. */
  ghost predicate FlowModWritten(fm: FlowMod, b: seq<Byte>, actions: seq<Byte>) {
    && |b| == 72 + |actions| && b[72..] == actions
    && HeaderOf(b) == WireHeaderFor(fm, |b|) && BodyOf(b) == WireBodyFor(fm, fm.bufferId % 0x1_0000_0000)
    && IsWritten(fm.fmMatch, MatchAt(b[8..48])) && IsWildcardWord(fm.fmMatch, MatchAt(b[8..48]).wildcards)
  }

  lemma PackedFlowMod(fm: FlowMod)
    requires Sendable(fm)
    ensures FlowModWritten(fm, PackFlowMod(fm), PackActions(fm.actions))
  {
    LayoutSizes();
    var length := LengthOfFlowMod(fm);
    var h, m, v := Pack(OF_HEADER, HeaderValues(fm, length)), PackMatch(fm.fmMatch), Pack(BODY, BodyValues(fm));
    var a := PackActions(fm.actions);
    ActionLengthsArePacked(fm.actions);
    PackedMatch(fm.fmMatch);
    FourParts(h, m, v, a);
    UnpackPack(OF_HEADER, HeaderValues(fm, length), m + v + a);
    UnpackPack(BODY, BodyValues(fm), a);
    FieldsArePacked(fm, h + m + v + a, length);
  }

  lemma FourParts(h: seq<Byte>, m: seq<Byte>, v: seq<Byte>, a: seq<Byte>)
    requires |h| == 8 && |m| == 40 && |v| == 24
    ensures var b := h + m + v + a;
      |b| == 72 + |a| && b[8..48] == m && b[72..] == a && b[48..] == v + a && b == h + (m + v + a)
  {
  }

  lemma FieldsArePacked(fm: FlowMod, b: seq<Byte>, length: nat)
    requires |b| >= 72 && Size(OF_HEADER) == 8 && Size(BODY) == 24
    requires Unpack(OF_HEADER, b) == HeaderValues(fm, length) && Unpack(BODY, b[48..]) == BodyValues(fm)
    ensures HeaderOf(b) == WireHeaderFor(fm, length) && BodyOf(b) == WireBodyFor(fm, fm.bufferId % 0x1_0000_0000)
  {
    HeaderOctets(b);
    BodyOctets(b);
  }

  // ---------------------------------------------------------------- the actions

  /** Octets of an action that is built from its class (section 5.2.4): set_dl_src, set_dl_dst and
      enqueue take 16, the others 8. */
  function ActionSize(typ: nat): nat { if typ in {4, 5, 11} then 16 else 8 }

  /** The values behind type and length, padding as zeros. */
  function ArgsAt(typ: nat, b: seq<Byte>): seq<nat>
    requires |b| >= ActionSize(typ)
  {
    if typ == 0 then [At(b, 4, 6), At(b, 6, 8)]                                 // port, max_len
    else if typ in {1, 9, 10, 19, 20} then [At(b, 4, 6), 0]                     // vlan id, ports, MPLS types
    else if typ in {2, 8, 14, 15} then [At(b, 4, 5), 0]                         // vlan priority, tos, MPLS
    else if typ in {4, 5} then [At(b, 4, 10), 0]                                // Ethernet addresses
    else if typ in {6, 7, 13} then [At(b, 4, 8)]                                // IP addresses, MPLS label
    else if typ == 11 then [At(b, 4, 6), 0, At(b, 12, 16)]                      // port, queue
    else [0]
  }

  predicate PadsWithZeros(typ: nat, b: seq<Byte>)
    requires |b| >= ActionSize(typ)
  {
    if typ in {1, 9, 10, 19, 20} then At(b, 6, 8) == 0
    else if typ in {2, 8, 14, 15} then At(b, 5, 8) == 0
    else if typ in {4, 5} then At(b, 10, 16) == 0
    else if typ == 11 then At(b, 6, 12) == 0
    else typ in {0, 6, 7, 13} || At(b, 4, 8) == 0
  }

  lemma SizeOfClass(typ: nat)
    ensures ClassSize(typ) == ActionSize(typ) && 4 + Size(Slots(typ)) == ActionSize(typ)
  {
  }

  lemma SlotAt(typ: nat, at: seq<nat>, b: seq<Byte>, k: nat)
    requires BeginAt(Slots(typ), at) && |b| >= 4 + Size(Slots(typ)) && k < |Slots(typ)|
    ensures 4 + at[k] + Slots(typ)[k] <= |b|
    ensures Unpack(Slots(typ), b[4..])[k] == At(b, 4 + at[k], 4 + at[k] + Slots(typ)[k])
  {
    ReadField(Slots(typ), at, b[4..], k);
    SliceOfRest(b, 4, at[k], Slots(typ)[k]);
  }

  lemma SlotsOfThree(typ: nat, b: seq<Byte>)
    requires typ == 11 && |b| >= 16
    ensures Size(Slots(typ)) == 12
    ensures Unpack(Slots(typ), b[4..]) == [At(b, 4, 6), At(b, 6, 12), At(b, 12, 16)]
  {
    SizeOfClass(typ);
    SlotAt(typ, [0, 2, 8], b, 0);
    SlotAt(typ, [0, 2, 8], b, 1);
    SlotAt(typ, [0, 2, 8], b, 2);
  }

  lemma SlotsOfTwo(typ: nat, b: seq<Byte>, w: nat)
    requires |b| >= ActionSize(typ) && w < ActionSize(typ) - 4 && Slots(typ) == [w, ActionSize(typ) - 4 - w]
    ensures 4 + Size(Slots(typ)) == ActionSize(typ)
    ensures Unpack(Slots(typ), b[4..]) == [At(b, 4, 4 + w), At(b, 4 + w, ActionSize(typ))]
  {
    SizeOfClass(typ);
    SlotAt(typ, [0, w], b, 0);
    SlotAt(typ, [0, w], b, 1);
  }

  lemma SlotsOfOne(typ: nat, b: seq<Byte>)
    requires |b| >= 8 && Slots(typ) == [4]
    ensures Size(Slots(typ)) == 4 && Unpack(Slots(typ), b[4..]) == [At(b, 4, 8)]
  {
    assert Size([4]) == 4;
    SlotAt(typ, [0], b, 0);
  }

  /** The values of an action before its padding is dropped. */
  lemma SlotsRead(typ: nat, b: seq<Byte>)
    requires |b| >= ActionSize(typ)
    ensures 4 + Size(Slots(typ)) == ActionSize(typ)
    ensures ClearPadding(ShapeOf(typ), Unpack(Slots(typ), b[4..])) == ArgsAt(typ, b)
    ensures PadsWithZeros(typ, b) <==> Unpack(Slots(typ), b[4..]) == ArgsAt(typ, b)
  {
    SizeOfClass(typ);
    match ShapeOf(typ)
    case TwoShorts => SlotsOfTwo(typ, b, 2);
    case ShortAndPad => SlotsOfTwo(typ, b, 2);
    case ByteAndPad => SlotsOfTwo(typ, b, 1);
    case AddressAndPad => SlotsOfTwo(typ, b, 6);
    case QueueShape => SlotsOfThree(typ, b);
    case OneLong => SlotsOfOne(typ, b);
    case PadOnly => SlotsOfOne(typ, b);
  }

  /** An action that is read, of whatever type. */
  lemma UnpackedAction(typ: nat, length: nat, b: seq<Byte>)
    requires |b| >= ActionSize(typ)
    ensures ClassSize(typ) == ActionSize(typ)
    ensures UnpackAction(typ, length, b) == Action(typ, length, ArgsAt(typ, b))
  {
    SizeOfClass(typ);
    SlotsRead(typ, b);
  }

  /** An action that is written: type, length and values in their octets; max_len is written only
      for output to the controller. */
  lemma PackedAction(a: Action)
    requires WellFormed(a)
    ensures var b := PackAction(a);
      && |b| == ActionSize(a.typ) && At(b, 0, 2) == a.typ && At(b, 2, 4) == |b| && PadsWithZeros(a.typ, b)
      && ArgsAt(a.typ, b) == (if a.typ == 0 && a.args[0] != 0xFFFD then [a.args[0], 0] else a.args)
  {
    var b, n := PackAction(a), Normal(a);
    SizeOfClass(a.typ);
    NormalIsWellFormed(a);
    HeaderRoundTrip(a.typ, a.length, Pack(Slots(a.typ), n.args));
    UnpackPack(Slots(a.typ), n.args, []);
    assert b[4..] == Pack(Slots(a.typ), n.args) && b[4..] + [] == b[4..];
    SlotsRead(a.typ, b);
    HighOctetFirst(b[0..2]);
    HighOctetFirst(b[2..4]);
  }

  /** Whether the class of a type takes an announced length: most take their own length only, the
      MPLS classes and the generic header, which stands for unknown types, at least eight octets. */
  predicate Takes(typ: nat, length: nat) {
    if typ in {0, 1, 2, 4, 5, 6, 7, 8, 9, 10, 11} then length == ActionSize(typ) else length >= 8
  }

  /** A whole action stands at this offset. */
  predicate StandsAt(b: seq<Byte>, k: nat, a: Action) {
    && k + 4 <= |b| && a.typ == At(b, k, k + 2) && a.length == At(b, k + 2, k + 4)
    && k + a.length <= |b| && Takes(a.typ, a.length)
    && a.args == ArgsAt(a.typ, b[k..k + a.length])
  }

  /** These actions stand one behind the other, each begun before the end, up to the stop. */
  predicate StandInRow(b: seq<Byte>, from: nat, end: nat, actions: seq<Action>, stop: nat)
    decreases |actions|
  {
    if actions == [] then stop == from
    else
      && from < end && StandsAt(b, from, actions[0])
      && StandInRow(b, from + actions[0].length, end, actions[1..], stop)
  }

  /** An action that the buffer does not hold as far as it says. */
  predicate IsCutOff(b: seq<Byte>, k: nat) { k + 4 <= |b| && k + At(b, k + 2, k + 4) > |b| }

  /** No whole action stands at this offset. */
  ghost predicate NothingAt(b: seq<Byte>, k: nat) { forall a :: !StandsAt(b, k, a) }

  lemma HeaderNumbers(b: seq<Byte>, k: nat)
    requires k + 4 <= |b|
    ensures Actions.HeaderAt(b, k) == (At(b, k, k + 2), At(b, k + 2, k + 4))
  {
    HighOctetFirst(b[k..k + 2]);
    HighOctetFirst(b[k + 2..k + 4]);
  }

  lemma OneAction(b: seq<Byte>, k: nat)
    requires k <= |b|
    ensures match ParseOne(b, k)
      case Next(a, next) => StandsAt(b, k, a) && next == k + a.length
      case CutOff => IsCutOff(b, k)
      case Raised => !IsCutOff(b, k) && NothingAt(b, k)
  {
    if k + 4 <= |b| {
      HeaderNumbers(b, k);
      var typ, length := At(b, k, k + 2), At(b, k + 2, k + 4);
      SizeOfClass(typ);
      if k + length <= |b| && Takes(typ, length) {
        UnpackedAction(typ, length, b[k..k + length]);
      }
    }
  }

  lemma OneInFront(b: seq<Byte>, from: nat, end: nat, a: Action, later: seq<Action>, stop: nat)
    requires from < end && StandsAt(b, from, a) && StandInRow(b, from + a.length, end, later, stop)
    ensures StandInRow(b, from, end, [a] + later, stop)
  {
    assert ([a] + later)[1..] == later;
  }

  /** What comes of a row of actions: the list when they reach the end, an empty list where one is
      cut off, and else an exception. */
  function ListOf(b: seq<Byte>, end: nat, actions: seq<Action>, stop: nat): Parsed {
    if stop >= end then Parsed(actions, stop) else if IsCutOff(b, stop) then Parsed([], stop) else Crash
  }

  /** The list of actions that is read from any octets: those that stand in a row as far as whole
      actions do. */
  lemma {:induction false} ListRead(b: seq<Byte>, from: nat, end: nat, found: seq<Action>)
    returns (actions: seq<Action>, stop: nat)
    requires from <= |b|
    ensures StandInRow(b, from, end, actions, stop) && stop <= |b|
    ensures ParseFrom(b, from, end, found) == ListOf(b, end, found + actions, stop)
    ensures stop < end ==> NothingAt(b, stop)
    decreases end - from
  {
    if from >= end {
      actions, stop := [], from;
      assert found + [] == found;
    } else if !ParseOne(b, from).Next? {
      actions, stop := [], from;
      Stopped(b, from, end, found);
    } else {
      var a, next := ParseOne(b, from).action, ParseOne(b, from).offset;
      var later;
      later, stop := ListRead(b, next, end, found + [a]);
      actions := [a] + later;
      NextInRow(b, from, end, later, stop);
      OneMore(b, from, end, found, a, next);
      Append(found, a, later);
      SameList(b, end, found + [a] + later, found + ([a] + later), stop);
    }
  }

  lemma NextInRow(b: seq<Byte>, from: nat, end: nat, later: seq<Action>, stop: nat)
    requires from <= |b| && from < end && ParseOne(b, from).Next?
    requires StandInRow(b, ParseOne(b, from).offset, end, later, stop)
    ensures StandInRow(b, from, end, [ParseOne(b, from).action] + later, stop)
  {
    OneAction(b, from);
    OneInFront(b, from, end, ParseOne(b, from).action, later, stop);
  }

  lemma SameList(b: seq<Byte>, end: nat, x: seq<Action>, y: seq<Action>, stop: nat)
    requires x == y
    ensures ListOf(b, end, x, stop) == ListOf(b, end, y, stop)
  {
  }

  lemma Stopped(b: seq<Byte>, from: nat, end: nat, found: seq<Action>)
    requires from <= |b| && from < end && !ParseOne(b, from).Next?
    ensures ParseFrom(b, from, end, found) == ListOf(b, end, found + [], from)
    ensures NothingAt(b, from)
  {
    OneAction(b, from);
  }

  /** The list in so many octets of a buffer is read that way; without so many octets it is empty. */
  lemma ActionsParsed(b: seq<Byte>, length: nat, offset: nat)
    requires offset <= |b|
    ensures ParseActions(b, length, offset) ==
      if offset + length > |b| then Parsed([], offset) else ParseFrom(b, offset, offset + length, [])
  {
  }
}
