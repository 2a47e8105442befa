/** The match as it travels inside a flow mod (ofp_match.pack and unpack with flow_mod=True).
    Wildcards of fields that the protocol makes meaningless are cleared on the wire and set
    again when read. */
module MatchWire {
  import opened Options
  import opened Bytes
  import opened Matches
  import opened Packets

  // ---------------------------------------------------------------- the wildcard word

  /** The bits lo..hi-1 as a number, bit lo least significant. */
  function BitSum(bits: set<nat>, lo: nat, hi: nat): nat
    requires lo <= hi
    decreases hi - lo, bits
  {
    if lo == hi then 0 else (if lo in bits then 1 else 0) + 2 * BitSum(bits, lo + 1, hi)
  }

  function BitsOf(n: nat, lo: nat, hi: nat): (r: set<nat>)
    requires lo <= hi
    decreases hi - lo, n
    ensures forall i :: i in r ==> lo <= i < hi
  {
    if lo == hi then {} else (if n % 2 == 1 then {lo} else {}) + BitsOf(n / 2, lo + 1, hi)
  }

  lemma {:induction false} BitsOfBitSum(bits: set<nat>, lo: nat, hi: nat)
    requires lo <= hi
    ensures BitsOf(BitSum(bits, lo, hi), lo, hi) == set i | i in bits && lo <= i < hi
    decreases hi - lo
  {
    if lo < hi {
      BitsOfBitSum(bits, lo + 1, hi);
      var n := BitSum(bits, lo, hi);
      assert n / 2 == BitSum(bits, lo + 1, hi);
      assert n % 2 == 1 <==> lo in bits;
    }
  }

  lemma {:induction false} BitSumBound(bits: set<nat>, lo: nat, hi: nat, bound: nat)
    requires lo <= hi && bound == Powers.Pow2(hi - lo)
    ensures BitSum(bits, lo, hi) < bound
    decreases hi - lo
  {
    if lo < hi {
      BitSumBound(bits, lo + 1, hi, Powers.Pow2(hi - lo - 1));
    }
  }

  /** The word as the 32-bit number that is written: eight single bits, the source count at
      bit 8, the destination count at bit 14, twelve single bits. */
  function Encode(w: Word): nat {
    BitSum(w.bits, 0, 8) + 256 * (w.srcCount + 64 * (w.dstCount + 64 * BitSum(w.bits, 20, 32)))
  }

  function Decode(n: nat): Word {
    Word(BitsOf(n % 256, 0, 8) + BitsOf(n / 0x10_0000, 20, 32), n / 256 % 64, n / 0x4000 % 64)
  }

  lemma SmallPowers()
    ensures Powers.Pow2(8) == 256 && Powers.Pow2(12) == 4096 && Power256(4) == 0x1_0000_0000
  {
  }

  /** One group of single bits, read back. */
  lemma GroupReadsBack(bits: set<nat>, lo: nat, hi: nat, bound: nat)
    requires lo <= hi && bound == Powers.Pow2(hi - lo)
    ensures BitSum(bits, lo, hi) < bound
    ensures BitsOf(BitSum(bits, lo, hi), lo, hi) == Between(bits, lo, hi)
  {
    BitSumBound(bits, lo, hi, bound);
    BitsOfBitSum(bits, lo, hi);
  }

  function Between(bits: set<nat>, lo: nat, hi: nat): set<nat> {
    set i | i in bits && lo <= i < hi
  }

  lemma TwoGroups(bits: set<nat>)
    requires forall p :: p in bits ==> SingleBit(p)
    ensures bits == Between(bits, 0, 8) + Between(bits, 20, 32)
  {
  }

  lemma GroupsReadBack(bits: set<nat>)
    requires forall p :: p in bits ==> SingleBit(p)
    ensures BitSum(bits, 0, 8) < 256 && BitSum(bits, 20, 32) < 4096
    ensures BitsOf(BitSum(bits, 0, 8), 0, 8) + BitsOf(BitSum(bits, 20, 32), 20, 32) == bits
  {
    SmallPowers();
    GroupReadsBack(bits, 0, 8, 256);
    GroupReadsBack(bits, 20, 32, 4096);
    TwoGroups(bits);
  }

  lemma DecodeEncode(w: Word)
    requires ValidWord(w)
    ensures Decode(Encode(w)) == w && Encode(w) < Power256(4)
  {
    var low, high := BitSum(w.bits, 0, 8), BitSum(w.bits, 20, 32);
    GroupsReadBack(w.bits);
    DecodeParts(Encode(w), low, w.srcCount, w.dstCount, high, w.bits);
  }

  lemma DecodeParts(n: nat, low: nat, src: nat, dst: nat, high: nat, bits: set<nat>)
    requires low < 256 && src < 64 && dst < 64 && high < 4096
    requires n == low + 256 * (src + 64 * (dst + 64 * high))
    requires BitsOf(low, 0, 8) + BitsOf(high, 20, 32) == bits
    ensures n < Power256(4) && Decode(n) == Word(bits, src, dst)
  {
    SmallPowers();
    SplitWord(low, src, dst, high);
    DecodeFields(n, low, src, dst, high);
  }

  lemma DecodeFields(n: nat, low: nat, src: nat, dst: nat, high: nat)
    requires n % 256 == low && n / 256 % 64 == src && n / 0x4000 % 64 == dst && n / 0x10_0000 == high
    ensures Decode(n) == Word(BitsOf(low, 0, 8) + BitsOf(high, 20, 32), src, dst)
  {
  }

  lemma SplitWord(low: nat, src: nat, dst: nat, high: nat)
    requires low < 256 && src < 64 && dst < 64 && high < 4096
    ensures var n := low + 256 * (src + 64 * (dst + 64 * high));
      && n < 0x1_0000_0000 && n % 256 == low && n / 256 % 64 == src && n / 0x4000 % 64 == dst && n / 0x10_0000 == high
  {
    SplitCount(dst, high);
    SplitCount(src, dst + 64 * high);
    SplitLow(low, src + 64 * (dst + 64 * high));
    DivideTwice(low + 256 * (src + 64 * (dst + 64 * high)));
  }

  lemma SplitLow(low: nat, rest: nat)
    requires low < 256
    ensures (low + 256 * rest) % 256 == low && (low + 256 * rest) / 256 == rest
  {
  }

  lemma SplitCount(low: nat, rest: nat)
    requires low < 64
    ensures (low + 64 * rest) % 64 == low && (low + 64 * rest) / 64 == rest
  {
  }

  lemma DivideTwice(n: nat)
    ensures n / 0x4000 == n / 256 / 64 && n / 0x10_0000 == n / 256 / 64 / 64
  {
  }

  // ---------------------------------------------------------------- ignored fields

  /** Fields that the protocol of a match makes meaningless, from its type and protocol. */
  predicate IgnoredFor(dlType: Option<nat>, nwProto: Option<nat>, f: Field) {
    if dlType == Some(IP_TYPE) then
      f in {TpSrc, TpDst} && !(nwProto.Some? && CarriesPorts(nwProto.value))
    else if dlType == Some(ARP_TYPE) then f in {NwTos, TpSrc, TpDst}
    else f in {NwTos, NwProto, NwSrc, NwDst, TpSrc, TpDst}
  }

  predicate Ignored(m: Match, f: Field) {
    IgnoredFor(Get(m, DlType), Get(m, NwProto), f)
  }

  const TP_BITS: set<nat> := {6, 7}             // tp_src, tp_dst
  const ARP_BITS: set<nat> := {6, 7, 21}        // the same and nw_tos
  const NETWORK_BITS: set<nat> := {5, 6, 7, 21} // the same and nw_proto

  /** _wire_wildcards, from what the match shows. */
  function WireWildcards(m: Match): Word {
    var w := m.wildcards;
    if Get(m, DlType) == Some(IP_TYPE) then
      if !(Get(m, NwProto).Some? && CarriesPorts(Get(m, NwProto).value)) then w.(bits := w.bits - TP_BITS) else w
    else if Get(m, DlType) == Some(ARP_TYPE) then w.(bits := w.bits - ARP_BITS)
    else w.(bits := w.bits - NETWORK_BITS, srcCount := 0, dstCount := 0)
  }

  /** _unwire_wildcards, from the raw values just read. */
  function UnwireWildcards(w: Word, dlType: nat, nwProto: nat): Word {
    if dlType == IP_TYPE then
      if !CarriesPorts(nwProto) then w.(bits := w.bits + TP_BITS) else w
    else if dlType == ARP_TYPE then w.(bits := w.bits + ARP_BITS)
    else w.(bits := w.bits + NETWORK_BITS, srcCount := 63, dstCount := 63)
  }

  // ---------------------------------------------------------------- pack and unpack

  const LINK_FIELDS: Layout := [4, 2, 6, 6]          // wildcards, in_port, dl_src, dl_dst
  const TAG_FIELDS: Layout := [2, 1, 1, 2]           // dl_vlan, dl_vlan_pcp, padding, dl_type
  const NETWORK_FIELDS: Layout := [1, 1, 2, 4]       // nw_tos, nw_proto, padding, nw_src
  const TRANSPORT_FIELDS: Layout := [4, 2, 2]        // nw_dst, tp_src, tp_dst
  const LAYOUT: Layout := LINK_FIELDS + TAG_FIELDS + NETWORK_FIELDS + TRANSPORT_FIELDS

  function OrZero(v: Option<nat>): nat { if v.Some? then v.value else 0 }

  /** The value written for a field: hidden and protocol-ignored fields are written as zero.
      check_ip guards nw_tos, check_ip_or_arp the protocol and the addresses, check_tp the ports. */
  function WireValue(m: Match, f: Field): nat {
    var isIp := Get(m, DlType) == Some(IP_TYPE);
    var isArp := Get(m, DlType) == Some(ARP_TYPE);
    match f
    case NwTos => if isIp then OrZero(Get(m, NwTos)) else 0
    case NwProto => if isIp || isArp then OrZero(Get(m, NwProto)) else 0
    case NwSrc => if isIp || isArp then OrZero(Get(m, NwSrc)) else 0
    case NwDst => if isIp || isArp then OrZero(Get(m, NwDst)) else 0
    case TpSrc => if isIp && CarriesPorts(OrZero(Get(m, NwProto))) then OrZero(Get(m, TpSrc)) else 0
    case TpDst => if isIp && CarriesPorts(OrZero(Get(m, NwProto))) then OrZero(Get(m, TpDst)) else 0
    case _ => OrZero(Get(m, f))
  }

  function WireValues(m: Match): seq<nat> {
    FieldValues(Encode(WireWildcards(m)), m)
  }

  function FieldValues(word: nat, m: Match): (r: seq<nat>)
    ensures |r| == 15
  {
    LinkValues(word, m) + TagValues(m) + NetworkValues(m) + TransportValues(m)
  }

  function LinkValues(word: nat, m: Match): seq<nat> {
    [word, WireValue(m, InPort), WireValue(m, DlSrc), WireValue(m, DlDst)]
  }

  function TagValues(m: Match): seq<nat> { [WireValue(m, DlVlan), WireValue(m, DlVlanPcp), 0, WireValue(m, DlType)] }

  function NetworkValues(m: Match): seq<nat> { [WireValue(m, NwTos), WireValue(m, NwProto), 0, WireValue(m, NwSrc)] }

  function TransportValues(m: Match): seq<nat> { [WireValue(m, NwDst), WireValue(m, TpSrc), WireValue(m, TpDst)] }

  lemma LayoutSize()
    ensures Size(LAYOUT) == 40
  {
    SizeOfSum(LINK_FIELDS, TAG_FIELDS + NETWORK_FIELDS + TRANSPORT_FIELDS);
    SizeOfSum(TAG_FIELDS, NETWORK_FIELDS + TRANSPORT_FIELDS);
    SizeOfSum(NETWORK_FIELDS, TRANSPORT_FIELDS);
    assert LAYOUT == LINK_FIELDS + (TAG_FIELDS + NETWORK_FIELDS + TRANSPORT_FIELDS);
    assert TAG_FIELDS + NETWORK_FIELDS + TRANSPORT_FIELDS == TAG_FIELDS + (NETWORK_FIELDS + TRANSPORT_FIELDS);
  }

  /** ofp_match.pack(flow_mod=True) */
  function PackMatch(m: Match): (r: seq<Byte>)
    ensures |r| == 40
  {
    LayoutSize();
    Pack(LAYOUT, WireValues(m))
  }

  function FromWire(v: seq<nat>): Match
    requires |v| == 15
  {
    Match(Normalize(UnwireWildcards(Decode(v[0]), v[7], v[9])), RawFromWire(v))
  }

  function RawFromWire(v: seq<nat>): map<Field, nat>
    requires |v| == 15
  {
    map[InPort := v[1], DlSrc := v[2], DlDst := v[3], DlVlan := v[4], DlVlanPcp := v[5], DlType := v[7], NwTos := v[8],
        NwProto := v[9], NwSrc := v[11], NwDst := v[12], TpSrc := v[13], TpDst := v[14]]
  }

  /** ofp_match.unpack(flow_mod=True) on at least 40 bytes */
  function UnpackMatch(b: seq<Byte>): Match
    requires |b| >= 40
  {
    LayoutSize();
    FromWire(Unpack(LAYOUT, b))
  }

  function Width(f: Field): nat {
    match f
    case InPort => 2
    case DlVlan => 2
    case DlSrc => 6
    case DlDst => 6
    case DlType => 2
    case NwProto => 1
    case TpSrc => 2
    case TpDst => 2
    case DlVlanPcp => 1
    case NwTos => 1
    case NwSrc => 4
    case NwDst => 4
  }

  /** Every shown value fits its width (struct.pack raises otherwise). */
  predicate Packable(m: Match) {
    ValidWord(m.wildcards) && forall f: Field :: OrZero(Get(m, f)) < Power256(Width(f))
  }

  const FIELDS: set<Field> :=
    {InPort, DlVlan, DlSrc, DlDst, DlType, NwProto, TpSrc, TpDst, DlVlanPcp, NwTos, NwSrc, NwDst}

  /** The normal form: what the protocol ignores is wildcarded, counts above 32 are 32, and
      hidden values are zero. */
  function NormalForm(m: Match): Match {
    var w := m.wildcards;
    Match(Word(w.bits + IgnoredBits(m),
               if Ignored(m, NwSrc) then 32 else Min(w.srcCount, 32),
               if Ignored(m, NwDst) then 32 else Min(w.dstCount, 32)),
          map f | f in FIELDS :: NormalValue(m, f))
  }

  function NormalValue(m: Match, f: Field): nat { if Ignored(m, f) then 0 else OrZero(Get(m, f)) }

  function IgnoredBits(m: Match): set<nat> {
    set f | f in FIELDS && !IsNetwork(f) && Ignored(m, f) :: Bit(f)
  }

  /** A match in normal form shows what the original shows, minus the ignored fields. */
  lemma NormalFormShows(m: Match, f: Field)
    ensures Get(NormalForm(m), f) == if Ignored(m, f) then None else Get(m, f)
    ensures IsNetwork(f) ==> GetNetwork(NormalForm(m), f) == if Ignored(m, f) then Anything else GetNetwork(m, f)
  {
    IgnoredBitsAre(m, f);
  }

  lemma IgnoredBitsAre(m: Match, f: Field)
    ensures f in FIELDS
    ensures !IsNetwork(f) ==> (Bit(f) in IgnoredBits(m) <==> Ignored(m, f))
  {
  }

  lemma SameIgnored(m: Match, f: Field)
    ensures Ignored(NormalForm(m), f) <==> Ignored(m, f)
  {
  }

  /** Normalising is idempotent. */
  lemma NormalFormIdempotent(m: Match)
    ensures NormalForm(NormalForm(m)) == NormalForm(m)
  {
    var n := NormalForm(m);
    forall f: Field ensures (Ignored(n, f) <==> Ignored(m, f)) && NormalValue(n, f) == NormalValue(m, f) {
      SameIgnored(m, f);
      NormalFormShows(m, f);
    }
    SameNormalForm(m, n);
  }

  lemma SameNormalForm(m: Match, n: Match)
    requires n == NormalForm(m)
    requires forall f: Field :: (Ignored(n, f) <==> Ignored(m, f)) && NormalValue(n, f) == NormalValue(m, f)
    ensures NormalForm(n) == n
  {
    assert IgnoredBits(n) == IgnoredBits(m);
    assert NormalForm(n).raw == n.raw;
    assert n.wildcards.bits + IgnoredBits(n) == n.wildcards.bits;
  }

  lemma WireValueIsNormal(m: Match, f: Field)
    ensures WireValue(m, f) == NormalValue(m, f)
  {
  }

  lemma IgnoredBitsByProtocol(m: Match)
    ensures IgnoredBits(m) ==
      if Get(m, DlType) == Some(IP_TYPE) then
        if !(Get(m, NwProto).Some? && CarriesPorts(Get(m, NwProto).value)) then TP_BITS else {}
      else if Get(m, DlType) == Some(ARP_TYPE) then ARP_BITS
      else NETWORK_BITS
  {
  }

  /** Reading back the wildcard word that was written. */
  lemma WordRoundTrip(m: Match)
    requires ValidWord(m.wildcards)
    ensures ValidWord(WireWildcards(m))
    ensures Normalize(UnwireWildcards(WireWildcards(m), NormalValue(m, DlType), NormalValue(m, NwProto)))
      == NormalForm(m).wildcards
  {
    IgnoredBitsByProtocol(m);
    if Get(m, DlType) == Some(IP_TYPE) {
      IpWordRoundTrip(m);
    } else {
      OtherWordRoundTrip(m);
    }
  }

  lemma IpWordRoundTrip(m: Match)
    requires Get(m, DlType) == Some(IP_TYPE)
    ensures UnwireWildcards(WireWildcards(m), NormalValue(m, DlType), NormalValue(m, NwProto))
      == m.wildcards.(bits := m.wildcards.bits + IgnoredBits(m))
  {
    IgnoredBitsByProtocol(m);
    PutBack(m.wildcards.bits, TP_BITS);
  }

  lemma OtherWordRoundTrip(m: Match)
    requires Get(m, DlType) != Some(IP_TYPE)
    ensures Normalize(UnwireWildcards(WireWildcards(m), NormalValue(m, DlType), NormalValue(m, NwProto)))
      == NormalForm(m).wildcards
  {
    IgnoredBitsByProtocol(m);
    PutBack(m.wildcards.bits, ARP_BITS);
    PutBack(m.wildcards.bits, NETWORK_BITS);
  }

  lemma PutBack(a: set<nat>, b: set<nat>)
    ensures (a - b) + b == a + b && a - {} == a
  {
  }

  lemma RawAt(word: nat, m: Match, f: Field)
    ensures f in FIELDS && f in RawFromWire(FieldValues(word, m))
    ensures RawFromWire(FieldValues(word, m))[f] == NormalValue(m, f)
  {
    WireValueIsNormal(m, f);
    ValueAt(FieldValues(word, m), f);
  }

  function Place(f: Field): nat {
    match f
    case InPort => 1
    case DlSrc => 2
    case DlDst => 3
    case DlVlan => 4
    case DlVlanPcp => 5
    case DlType => 7
    case NwTos => 8
    case NwProto => 9
    case NwSrc => 11
    case NwDst => 12
    case TpSrc => 13
    case TpDst => 14
  }

  lemma ValueAt(v: seq<nat>, f: Field)
    requires |v| == 15
    ensures f in RawFromWire(v) && RawFromWire(v)[f] == v[Place(f)]
  {
  }

  lemma RawRoundTrip(word: nat, m: Match, raw: map<Field, nat>)
    requires raw == RawFromWire(FieldValues(word, m))
    ensures raw == map f | f in FIELDS :: NormalValue(m, f)
  {
    forall f: Field ensures f in FIELDS && f in raw && raw[f] == NormalValue(m, f) {
      RawAt(word, m, f);
    }
  }

  lemma FromWireIsNormal(m: Match)
    requires ValidWord(m.wildcards)
    ensures FromWire(WireValues(m)) == NormalForm(m)
  {
    var word := WireWildcards(m);
    WireValueIsNormal(m, DlType);
    WireValueIsNormal(m, NwProto);
    WordRoundTrip(m);
    DecodeEncode(word);
    RawRoundTrip(Encode(word), m, RawFromWire(WireValues(m)));
    FromWireParts(WireValues(m), word, NormalValue(m, DlType), NormalValue(m, NwProto));
  }

  lemma FromWireParts(v: seq<nat>, word: Word, dlType: nat, nwProto: nat)
    requires |v| == 15 && Decode(v[0]) == word && v[7] == dlType && v[9] == nwProto
    ensures FromWire(v) == Match(Normalize(UnwireWildcards(word, dlType, nwProto)), RawFromWire(v))
  {
  }

  lemma LinkFits(m: Match, word: nat)
    requires word < Power256(4)
    requires forall f: Field :: WireValue(m, f) < Power256(Width(f))
    ensures Bytes.Fits(LINK_FIELDS, LinkValues(word, m))
  {
  }

  lemma TagFits(m: Match)
    requires forall f: Field :: WireValue(m, f) < Power256(Width(f))
    ensures Bytes.Fits(TAG_FIELDS, TagValues(m))
  {
  }

  lemma NetworkFits(m: Match)
    requires forall f: Field :: WireValue(m, f) < Power256(Width(f))
    ensures Bytes.Fits(NETWORK_FIELDS, NetworkValues(m))
  {
  }

  lemma TransportFits(m: Match)
    requires forall f: Field :: WireValue(m, f) < Power256(Width(f))
    ensures Bytes.Fits(TRANSPORT_FIELDS, TransportValues(m))
  {
  }

  lemma WireFits(m: Match)
    requires Packable(m)
    ensures Bytes.Fits(LAYOUT, WireValues(m))
  {
    var word := Encode(WireWildcards(m));
    WordRoundTrip(m);
    DecodeEncode(WireWildcards(m));
    forall f: Field ensures WireValue(m, f) < Power256(Width(f)) {
      WireValueIsNormal(m, f);
    }
    LinkFits(m, word);
    TagFits(m);
    NetworkFits(m);
    TransportFits(m);
    FitsAppend(LINK_FIELDS, LinkValues(word, m), TAG_FIELDS, TagValues(m));
    FitsAppend(LINK_FIELDS + TAG_FIELDS, LinkValues(word, m) + TagValues(m), NETWORK_FIELDS, NetworkValues(m));
    FitsAppend(LINK_FIELDS + TAG_FIELDS + NETWORK_FIELDS, LinkValues(word, m) + TagValues(m) + NetworkValues(m),
               TRANSPORT_FIELDS, TransportValues(m));
  }

  /** Unpacking a packed match gives its normal form. */
  lemma MatchRoundTrip(m: Match, rest: seq<Byte>)
    requires Packable(m)
    ensures UnpackMatch(PackMatch(m) + rest) == NormalForm(m)
  {
    WireFits(m);
    UnpackPack(LAYOUT, WireValues(m), rest);
    FromWireIsNormal(m);
  }

  /** The normal form can be packed again. */
  lemma NormalFormPackable(m: Match)
    requires Packable(m)
    ensures Packable(NormalForm(m))
  {
  }
}
