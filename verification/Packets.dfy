/** Packets as the match sees them (ofp_match.from_packet), and what subsumption of matches
    means for them. */
module Packets {
  import opened Options
  import opened Powers
  import opened Matches

  const IP_TYPE: nat := 0x0800
  const ARP_TYPE: nat := 0x0806
  const RARP_TYPE: nat := 0x8035
  const VLAN_NONE: nat := 0xFFFF

  datatype Vlan = Untagged | Tagged(id: nat, pcp: nat)

  /** Ports of UDP and TCP, type and code of ICMP, or neither (other or unparsed protocol). */
  datatype Ports = NoPorts | Ports(src: nat, dst: nat)

  datatype Payload =
    | Ip(src: nat, dst: nat, proto: nat, tos: nat, ports: Ports)
    | Arp(opcode: nat, src: nat, dst: nat)
    | Opaque

  /** etherType is the type behind the VLAN tag, if there is one. */
  datatype Packet = Packet(src: nat, dst: nat, etherType: nat, vlan: Vlan, payload: Payload)

  predicate CarriesPorts(proto: nat) { proto in {1, 6, 17} }

  /** The parser produces an IP payload exactly behind the type for IP and an ARP payload exactly
      behind the types for ARP and RARP, with default fields where the header is cut short, and
      ports only behind their protocol; behind the type for VLAN it finds a tag, and never two. */
  predicate WellTyped(p: Packet) {
    match p.payload
    case Ip(_, _, proto, _, ports) => p.etherType == 0x0800 && (ports.Ports? ==> proto in {1, 6, 17})
    case Arp(_, _, _) => p.etherType == 0x0806 || p.etherType == 0x8035
    case Opaque => p.etherType !in {0x0800, 0x0806, 0x8035, 0x8100}
  }

  /** The header fields fit their widths. */
  predicate Fits(p: Packet, inPort: nat) {
    && inPort < 0x1_0000
    && p.src < 0x1_0000_0000_0000 && p.dst < 0x1_0000_0000_0000 && p.etherType < 0x1_0000
    && (p.vlan.Tagged? ==> p.vlan.id < 0x1000 && p.vlan.pcp < 8)
    && match p.payload
       case Ip(src, dst, proto, tos, ports) =>
         && src < 0x1_0000_0000 && dst < 0x1_0000_0000 && proto < 0x100 && tos < 0x100
         && (ports.Ports? ==> if proto == 1 then ports.src < 0x100 && ports.dst < 0x100
                              else ports.src < 0x1_0000 && ports.dst < 0x1_0000)
       case Arp(opcode, src, dst) => opcode < 0x1_0000 && src < 0x1_0000_0000 && dst < 0x1_0000_0000
       case Opaque => true
  }

  /** ofp_match.from_packet */
  function FromPacket(p: Packet, inPort: nat): Match {
    FromPayload(FromEthernet(p, inPort), p.payload)
  }

  function FromEthernet(p: Packet, inPort: nat): Match {
    var m := FromAddresses(p, inPort);
    var m := Set(m, DlType, Some(p.etherType));
    match p.vlan
    case Tagged(id, pcp) => Set(Set(m, DlVlan, Some(id)), DlVlanPcp, Some(pcp))
    case Untagged => Set(Set(m, DlVlan, Some(VLAN_NONE)), DlVlanPcp, Some(0))
  }

  function FromAddresses(p: Packet, inPort: nat): Match {
    Set(Set(Set(FRESH, InPort, Some(inPort)), DlSrc, Some(p.src)), DlDst, Some(p.dst))
  }

  function FromPayload(m: Match, payload: Payload): Match {
    match payload
    case Ip(src, dst, proto, tos, ports) =>
      var m := SetNetwork(m, NwSrc, Some(Cidr(src, 0)));
      var m := SetNetwork(m, NwDst, Some(Cidr(dst, 0)));
      var m := Set(m, NwProto, Some(proto));
      var m := Set(m, NwTos, Some(tos));
      FromPorts(m, ports)
    case Arp(opcode, src, dst) =>
      if opcode <= 255 then
        var m := Set(m, NwProto, Some(opcode));
        var m := SetNetwork(m, NwSrc, Some(Cidr(src, 0)));
        SetNetwork(m, NwDst, Some(Cidr(dst, 0)))
      else m
    case Opaque => m
  }

  function FromPorts(m: Match, ports: Ports): Match {
    match ports
    case Ports(s, d) => Set(Set(m, TpSrc, Some(s)), TpDst, Some(d))
    case NoPorts => m
  }

  /** The fields of a packet, stated one by one. */
  function FieldOf(p: Packet, inPort: nat, f: Field): Option<nat> {
    match f
    case InPort => Some(inPort)
    case DlSrc => Some(p.src)
    case DlDst => Some(p.dst)
    case DlType => Some(p.etherType)
    case DlVlan => Some(if p.vlan.Tagged? then p.vlan.id else 0xFFFF)
    case DlVlanPcp => Some(if p.vlan.Tagged? then p.vlan.pcp else 0)
    case NwProto => if p.payload.Ip? then Some(p.payload.proto)
                    else if p.payload.Arp? && p.payload.opcode <= 255 then Some(p.payload.opcode) else None
    case NwSrc => if HasNetworks(p) then Some(p.payload.src) else None
    case NwDst => if HasNetworks(p) then Some(p.payload.dst) else None
    case NwTos => if p.payload.Ip? then Some(p.payload.tos) else None
    case TpSrc => if p.payload.Ip? && p.payload.ports.Ports? then Some(p.payload.ports.src) else None
    case TpDst => if p.payload.Ip? && p.payload.ports.Ports? then Some(p.payload.ports.dst) else None
  }

  predicate HasNetworks(p: Packet) { p.payload.Ip? || (p.payload.Arp? && p.payload.opcode <= 255) }

  function NetworkOf(p: Packet, f: Field): Prefix
    requires IsNetwork(f)
  {
    if HasNetworks(p) then Net(if f == NwSrc then p.payload.src else p.payload.dst, 0) else Anything
  }

  predicate IsEthernet(f: Field) { f in {InPort, DlSrc, DlDst, DlType, DlVlan, DlVlanPcp} }

  lemma FromAddressesShows(p: Packet, inPort: nat, f: Field)
    ensures Get(FromAddresses(p, inPort), f) == if f in {InPort, DlSrc, DlDst} then FieldOf(p, inPort, f) else None
    ensures IsNetwork(f) ==> GetNetwork(FromAddresses(p, inPort), f) == Anything
  {
    FreshHides(f);
    var m := Set(FRESH, InPort, Some(inPort));
    SetReadsBack(FRESH, InPort, Some(inPort), f);
    SetReadsBack(m, DlSrc, Some(p.src), f);
    SetReadsBack(Set(m, DlSrc, Some(p.src)), DlDst, Some(p.dst), f);
  }

  lemma FromEthernetShows(p: Packet, inPort: nat, f: Field)
    ensures Get(FromEthernet(p, inPort), f) == if IsEthernet(f) then FieldOf(p, inPort, f) else None
    ensures IsNetwork(f) ==> GetNetwork(FromEthernet(p, inPort), f) == Anything
  {
    var m0 := FromAddresses(p, inPort);
    var m1 := Set(m0, DlType, Some(p.etherType));
    var id, pcp := if p.vlan.Tagged? then p.vlan.id else VLAN_NONE, if p.vlan.Tagged? then p.vlan.pcp else 0;
    FromAddressesShows(p, inPort, f);
    SetReadsBack(m0, DlType, Some(p.etherType), f);
    SetReadsBack(m1, DlVlan, Some(id), f);
    SetReadsBack(Set(m1, DlVlan, Some(id)), DlVlanPcp, Some(pcp), f);
  }

  lemma FromPortsShows(m: Match, ports: Ports, f: Field)
    ensures Get(FromPorts(m, ports), f) ==
      if ports.Ports? && f == TpSrc then Some(ports.src) else if ports.Ports? && f == TpDst then Some(ports.dst)
      else Get(m, f)
    ensures IsNetwork(f) ==> GetNetwork(FromPorts(m, ports), f) == GetNetwork(m, f)
  {
  }

  lemma SetBothNetworks(m: Match, src: nat, dst: nat, f: Field)
    ensures var m' := SetNetwork(SetNetwork(m, NwSrc, Some(Cidr(src, 0))), NwDst, Some(Cidr(dst, 0)));
      && Get(m', f) == (if f == NwSrc then Some(src) else if f == NwDst then Some(dst) else Get(m, f))
      && (IsNetwork(f) ==> GetNetwork(m', f) == Net(if f == NwSrc then src else dst, 0))
  {
  }

  /** from_packet shows exactly the fields of the packet. */
  lemma FromPacketShows(p: Packet, inPort: nat, f: Field)
    ensures Get(FromPacket(p, inPort), f) == FieldOf(p, inPort, f)
    ensures IsNetwork(f) ==> GetNetwork(FromPacket(p, inPort), f) == NetworkOf(p, f)
  {
    var m := FromEthernet(p, inPort);
    FromEthernetShows(p, inPort, f);
    match p.payload
    case Ip(src, dst, proto, tos, ports) =>
      SetBothNetworks(m, src, dst, f);
      var m2 := SetNetwork(SetNetwork(m, NwSrc, Some(Cidr(src, 0))), NwDst, Some(Cidr(dst, 0)));
      var m3 := Set(m2, NwProto, Some(proto));
      SetReadsBack(m2, NwProto, Some(proto), f);
      SetReadsBack(m3, NwTos, Some(tos), f);
      FromPortsShows(Set(m3, NwTos, Some(tos)), ports, f);
    case Arp(opcode, src, dst) =>
      SetReadsBack(m, NwProto, Some(opcode), f);
      SetBothNetworks(Set(m, NwProto, Some(opcode)), src, dst, f);
    case Opaque =>
  }

  /** Whether a match admits a packet that came in on a port (as entry_for_packet asks). */
  predicate Admits(m: Match, p: Packet, inPort: nat) {
    Encompasses(m, FromPacket(p, inPort), false)
  }

  // ---------------------------------------------------------------- subsumption

  /** Soundness: every packet the smaller match admits, the larger one admits. */
  lemma EncompassingAdmits(a: Match, b: Match, p: Packet, inPort: nat)
    requires Encompasses(a, b) && Admits(b, p, inPort)
    ensures Admits(a, p, inPort)
  {
    EncompassesTransitive(a, b, FromPacket(p, inPort), false);
  }

  // ---------------------------------------------------------------- completeness

  /** Admits, stated on the fields of the packet. */
  predicate Meets(m: Match, p: Packet, inPort: nat) {
    && (forall f: Field :: !IsNetwork(f) ==> FieldAdmits(f, Get(m, f), FieldOf(p, inPort, f)))
    && (forall f: Field :: IsNetwork(f) ==> PrefixAdmits(GetNetwork(m, f), NetworkOf(p, f)))
  }

  lemma AdmitsIsMeets(m: Match, p: Packet, inPort: nat)
    ensures Admits(m, p, inPort) <==> Meets(m, p, inPort)
  {
    forall f: Field ensures ShowsAt(FromPacket(p, inPort), p, inPort, f) {
      FromPacketShows(p, inPort, f);
    }
    KeyIsMet(m, FromPacket(p, inPort), p, inPort);
  }

  predicate ShowsAt(key: Match, p: Packet, inPort: nat, f: Field) {
    Get(key, f) == FieldOf(p, inPort, f) && (IsNetwork(f) ==> GetNetwork(key, f) == NetworkOf(p, f))
  }

  lemma KeyIsMet(m: Match, key: Match, p: Packet, inPort: nat)
    requires forall f: Field :: ShowsAt(key, p, inPort, f)
    ensures Encompasses(m, key, false) <==> Meets(m, p, inPort)
  {
    FieldsAdmitIsMeets(m, key, p, inPort);
    WholeNetwork(key, p, inPort, NwSrc);
    WholeNetwork(key, p, inPort, NwDst);
    SameAdmits(m, key);
  }

  predicate IsWhole(n: Prefix) { n.Net? ==> n.ignored == 0 }

  lemma WholeNetwork(key: Match, p: Packet, inPort: nat, f: Field)
    requires ShowsAt(key, p, inPort, f) && IsNetwork(f)
    ensures IsWhole(GetNetwork(key, f))
  {
  }

  lemma FieldsAdmitIsMeets(m: Match, key: Match, p: Packet, inPort: nat)
    requires forall f: Field :: ShowsAt(key, p, inPort, f)
    ensures FieldsAdmit(m, key) <==> Meets(m, p, inPort)
  {
    forall f: Field
      ensures Get(key, f) == FieldOf(p, inPort, f)
      ensures IsNetwork(f) ==> GetNetwork(key, f) == NetworkOf(p, f)
    {
      assert ShowsAt(key, p, inPort, f);
    }
  }

  /** A match equal to a packet's own match, whose addresses are whole, passes every field test. */
  lemma SameAdmits(m: Match, key: Match)
    requires IsWhole(GetNetwork(key, NwSrc)) && IsWhole(GetNetwork(key, NwDst))
    ensures Same(m, key) ==> FieldsAdmit(m, key)
  {
    if Same(m, key) {
      SameNetwork(m, key, NwSrc);
      SameNetwork(m, key, NwDst);
      WholeAddress(GetNetwork(key, NwSrc));
      WholeAddress(GetNetwork(key, NwDst));
    }
  }

  lemma SameNetwork(a: Match, b: Match, f: Field)
    requires Same(a, b) && IsNetwork(f)
    ensures GetNetwork(a, f) == GetNetwork(b, f)
  {
    assert Get(a, f) == Get(b, f);
  }

  lemma WholeAddress(n: Prefix)
    requires IsWhole(n)
    ensures PrefixAdmits(n, n)
  {
  }

  /** Every packet that b admits, a admits. */
  ghost predicate Subsumes(a: Match, b: Match) {
    forall p, inPort :: WellTyped(p) && Fits(p, inPort) && Admits(b, p, inPort) ==> Admits(a, p, inPort)
  }

  /** A match that asks for a field only IP packets have also names the Ethernet type, and one
      that asks for untagged packets also names their (zero) priority bits. */
  predicate NamesItsProtocols(m: Match) {
    && (Get(m, NwTos).Some? || Get(m, TpSrc).Some? || Get(m, TpDst).Some? ==> Get(m, DlType).Some?)
    && (Get(m, DlVlan) == Some(VLAN_NONE) ==> Get(m, DlVlanPcp).Some?)
  }

  function Other(x: nat): nat { if x == 0 then 1 else 0 }

  /** The packet with another value in one field that it has. An IP packet becomes the ARP packet
      with the same protocol and addresses, and ports stay behind a protocol that has them. */
  function Change(p: Packet, f: Field): Packet
    requires !IsNetwork(f) && WellTyped(p) && FieldOf(p, 0, f).Some?
  {
    var x := Other(FieldOf(p, 0, f).value);
    match f
    case InPort => p
    case DlSrc => p.(src := x)
    case DlDst => p.(dst := x)
    case DlType =>
      (match p.payload
       case Ip(src, dst, proto, _, _) => p.(etherType := ARP_TYPE, payload := Arp(proto, src, dst))
       case Arp(_, _, _) => p.(etherType := if p.etherType == ARP_TYPE then RARP_TYPE else ARP_TYPE)
       case Opaque => p.(etherType := x))
    case DlVlan => p.(vlan := Tagged(x, FieldOf(p, 0, DlVlanPcp).value))
    case DlVlanPcp => p.(vlan := Tagged(if p.vlan.Tagged? then p.vlan.id else 0, x))
    case NwProto =>
      p.(payload := if p.payload.Arp? then p.payload.(opcode := x)
                    else if p.payload.ports.NoPorts? then p.payload.(proto := x)
                    else p.payload.(proto := if p.payload.proto == 6 then 17 else 6))
    case NwTos => p.(payload := p.payload.(tos := x))
    case TpSrc => p.(payload := p.payload.(ports := p.payload.ports.(src := x)))
    case TpDst => p.(payload := p.payload.(ports := p.payload.ports.(dst := x)))
  }

  lemma ChangeFits(p: Packet, inPort: nat, f: Field)
    requires !IsNetwork(f) && WellTyped(p) && Fits(p, inPort) && FieldOf(p, 0, f).Some?
    ensures WellTyped(Change(p, f)) && Fits(Change(p, f), inPort)
    ensures f != InPort ==> FieldOf(Change(p, f), inPort, f) != FieldOf(p, inPort, f)
  {
  }

  /** No other field that b asks for is affected. */
  lemma ChangeLeaves(b: Match, p: Packet, inPort: nat, f: Field, g: Field)
    requires NamesItsProtocols(b) && WellTyped(p) && Fits(p, inPort) && Meets(b, p, inPort)
    requires !IsNetwork(f) && f != InPort && IsOpen(f, Get(b, f)) && FieldOf(p, 0, f).Some?
    requires g != f && Get(b, g).Some?
    ensures FieldOf(Change(p, f), inPort, g) == FieldOf(p, inPort, g)
  {
    assert FieldAdmits(DlVlan, Get(b, DlVlan), FieldOf(p, inPort, DlVlan));
    match f case _ =>
  }

  /** A field that b leaves open can be changed in an admitted packet. */
  lemma ChangeField(b: Match, p: Packet, inPort: nat, f: Field) returns (p': Packet, inPort': nat)
    requires NamesItsProtocols(b) && WellTyped(p) && Fits(p, inPort) && Meets(b, p, inPort)
    requires !IsNetwork(f) && IsOpen(f, Get(b, f)) && FieldOf(p, inPort, f).Some?
    ensures WellTyped(p') && Fits(p', inPort') && Meets(b, p', inPort')
    ensures FieldOf(p', inPort', f) != FieldOf(p, inPort, f)
  {
    if f == InPort {
      p', inPort' := p, Other(inPort);
    } else {
      p', inPort' := Change(p, f), inPort;
      ChangeFits(p, inPort, f);
      forall g: Field | g != f && Get(b, g).Some? ensures FieldOf(p', inPort', g) == FieldOf(p, inPort, g) {
        ChangeLeaves(b, p, inPort, f, g);
      }
    }
    ChangedMeets(b, p, p', inPort, inPort', f);
  }

  /** What ChangeField does to the other fields b can see. */
  lemma ChangedMeets(b: Match, p: Packet, p': Packet, inPort: nat, inPort': nat, f: Field)
    requires Meets(b, p, inPort)
    requires forall g: Field :: g != f && Get(b, g).Some? ==> FieldOf(p', inPort', g) == FieldOf(p, inPort, g)
    requires !IsNetwork(f) && IsOpen(f, Get(b, f))
    ensures Meets(b, p', inPort')
  {
    forall g: Field | !IsNetwork(g) ensures FieldAdmits(g, Get(b, g), FieldOf(p', inPort', g)) {
      assert FieldAdmits(g, Get(b, g), FieldOf(p, inPort, g));
    }
    forall g: Field | IsNetwork(g) ensures PrefixAdmits(GetNetwork(b, g), NetworkOf(p', g)) {
      assert PrefixAdmits(GetNetwork(b, g), NetworkOf(p, g));
      assert Get(b, g).Some? ==> FieldOf(p', inPort', g) == FieldOf(p, inPort, g);
    }
  }

  /** Every field a asks for, b names with the same value. */
  lemma FieldIsNeeded(a: Match, b: Match, p: Packet, inPort: nat, f: Field)
    requires Subsumes(a, b) && NamesItsProtocols(b) && !IsNetwork(f)
    requires WellTyped(p) && Fits(p, inPort) && Meets(b, p, inPort) && Meets(a, p, inPort)
    ensures FieldAdmits(f, Get(a, f), Get(b, f))
  {
    assert FieldAdmits(f, Get(a, f), FieldOf(p, inPort, f)) && FieldAdmits(f, Get(b, f), FieldOf(p, inPort, f));
    if !IsOpen(f, Get(a, f)) && IsOpen(f, Get(b, f)) {
      var p', inPort' := ChangeField(b, p, inPort, f);
      assert !FieldAdmits(f, Get(a, f), FieldOf(p', inPort', f));
      AdmitsIsMeets(a, p', inPort');
      AdmitsIsMeets(b, p', inPort');
    }
  }

  /** Flipping bit w of an address leaves every shorter prefix alone. */
  lemma FlipBit(x: nat, w: nat) returns (y: nat)
    requires w < 32 && x < 0x1_0000_0000
    ensures y < 0x1_0000_0000 && ClearLow(y, w) != ClearLow(x, w)
    ensures forall v :: w < v ==> ClearLow(y, v) == ClearLow(x, v)
  {
    var block := ClearLow(x, w + 1);
    ClearLowIsBlock(x, w + 1, block);
    assert Pow2(w + 1) == 2 * Pow2(w);
    y := if x < block + Pow2(w) then x + Pow2(w) else x - Pow2(w);
    ClearLowIsBlock(y, w + 1, block);
    forall v | w < v ensures ClearLow(y, v) == ClearLow(x, v) {
      ClearLowTwice(x, w + 1, v);
      ClearLowTwice(y, w + 1, v);
    }
    Pow2Of32();
    ZeroIsClear(x, 32);
    ClearLowIsBlock(y, 32, 0);
  }

  lemma ZeroIsClear(x: nat, b: nat)
    requires x < Pow2(b)
    ensures ClearLow(x, b) == 0
  {
    ModIsUnique(x, 0, Pow2(b), x);
  }

  /** An address whose bit w b does not look at can be changed in an admitted packet. */
  lemma ChangeNetwork(b: Match, p: Packet, inPort: nat, f: Field, w: nat) returns (p': Packet)
    requires WellTyped(p) && Fits(p, inPort) && Meets(b, p, inPort)
    requires IsNetwork(f) && HasNetworks(p) && w < 32
    requires GetNetwork(b, f).Anything? || GetNetwork(b, f).ignored > w
    ensures WellTyped(p') && Fits(p', inPort) && Meets(b, p', inPort) && HasNetworks(p')
    ensures ClearLow(NetworkOf(p', f).addr, w) != ClearLow(NetworkOf(p, f).addr, w)
  {
    var y := FlipBit(NetworkOf(p, f).addr, w);
    p' := p.(payload := if f == NwSrc then p.payload.(src := y) else p.payload.(dst := y));
    forall g: Field | !IsNetwork(g) ensures FieldAdmits(g, Get(b, g), FieldOf(p', inPort, g)) {
      assert FieldAdmits(g, Get(b, g), FieldOf(p, inPort, g));
    }
    forall g: Field | IsNetwork(g) ensures PrefixAdmits(GetNetwork(b, g), NetworkOf(p', g)) {
      assert PrefixAdmits(GetNetwork(b, g), NetworkOf(p, g));
    }
  }

  /** Every prefix a names contains the prefix b names. */
  lemma NetworkIsNeeded(a: Match, b: Match, p: Packet, inPort: nat, f: Field)
    requires Subsumes(a, b) && IsNetwork(f)
    requires WellTyped(p) && Fits(p, inPort) && Meets(b, p, inPort) && Meets(a, p, inPort)
    ensures PrefixAdmits(GetNetwork(a, f), GetNetwork(b, f))
  {
    var na, nb := GetNetwork(a, f), GetNetwork(b, f);
    assert PrefixAdmits(na, NetworkOf(p, f)) && PrefixAdmits(nb, NetworkOf(p, f));
    if na.Net? {
      if nb.Net? && nb.ignored <= na.ignored {
        ClearLowTwice(NetworkOf(p, f).addr, nb.ignored, na.ignored);
      } else {
        var p' := ChangeNetwork(b, p, inPort, f, na.ignored);
        assert !PrefixAdmits(na, NetworkOf(p', f));
        AdmitsIsMeets(a, p', inPort);
        AdmitsIsMeets(b, p', inPort);
      }
    }
  }

  /** Where b hides an Ethernet address, a does not name the zero one. */
  predicate NoHiddenZero(a: Match, b: Match) {
    && (Get(b, DlSrc).None? ==> Get(a, DlSrc) != Some(0))
    && (Get(b, DlDst).None? ==> Get(a, DlDst) != Some(0))
  }

  predicate InAll(m: Match) { m.wildcards.bits <= ALL.bits }

  ghost predicate AdmittedBy(b: Match, p: Packet, inPort: nat) {
    WellTyped(p) && Fits(p, inPort) && Admits(b, p, inPort)
  }

  /** Completeness: for a satisfiable match that names its protocols, matches_with_wildcards says
      yes exactly when every packet it admits is admitted by the other, and the other does not
      name a zero Ethernet address in its place. */
  lemma EncompassesIsSubsumption(a: Match, b: Match, p: Packet, inPort: nat)
    requires InAll(a) && InAll(b) && NamesItsProtocols(b) && AdmittedBy(b, p, inPort)
    ensures Encompasses(a, b) <==> Subsumes(a, b) && NoHiddenZero(a, b)
  {
    if Encompasses(a, b) {
      EncompassingSubsumes(a, b);
    }
    if Subsumes(a, b) && NoHiddenZero(a, b) {
      SubsumingAdmitsFields(a, b, p, inPort);
      SubsumingHides(a, b);
    }
  }

  lemma SubsumingAdmitsFields(a: Match, b: Match, p: Packet, inPort: nat)
    requires Subsumes(a, b) && NamesItsProtocols(b) && AdmittedBy(b, p, inPort)
    ensures FieldsAdmit(a, b)
  {
    AdmitsIsMeets(a, p, inPort);
    AdmitsIsMeets(b, p, inPort);
    NetworkIsNeeded(a, b, p, inPort, NwSrc);
    NetworkIsNeeded(a, b, p, inPort, NwDst);
    forall f: Field | !IsNetwork(f) ensures FieldAdmits(f, Get(a, f), Get(b, f)) {
      FieldIsNeeded(a, b, p, inPort, f);
    }
  }

  lemma SubsumingHides(a: Match, b: Match)
    requires InAll(b) && FieldsAdmit(a, b) && NoHiddenZero(a, b)
    ensures b.wildcards.bits <= a.wildcards.bits
  {
    forall i | i in b.wildcards.bits ensures i in a.wildcards.bits {
      var f := FieldAt(i);
      assert FieldAdmits(f, Get(a, f), Get(b, f));
    }
  }

  lemma EncompassingSubsumes(a: Match, b: Match)
    requires InAll(b) && Encompasses(a, b)
    ensures Subsumes(a, b) && NoHiddenZero(a, b)
  {
    forall q, port | AdmittedBy(b, q, port) ensures Admits(a, q, port) {
      EncompassingAdmits(a, b, q, port);
    }
    if Get(b, DlSrc).None? { HiddenStaysHidden(a, b, DlSrc); }
    if Get(b, DlDst).None? { HiddenStaysHidden(a, b, DlDst); }
  }

  lemma HiddenStaysHidden(a: Match, b: Match, f: Field)
    requires Encompasses(a, b) && !IsNetwork(f) && Get(b, f).None?
    ensures Get(a, f).None?
  {
    assert Same(a, b) ==> Get(a, f) == Get(b, f);
  }

  /** The test decides subsumption by b of every match that names no zero Ethernet address where b
      hides one. */
  ghost predicate Decides(b: Match) {
    forall a {:trigger Encompasses(a, b)} :: InAll(a) && NoHiddenZero(a, b) ==> (Encompasses(a, b) <==> Subsumes(a, b))
  }

  /** That is so for a satisfiable match exactly when it names its protocols. */
  lemma DecidesExactlyWhenNamed(b: Match, p: Packet, inPort: nat)
    requires InAll(b) && AdmittedBy(b, p, inPort)
    ensures Decides(b) <==> NamesItsProtocols(b)
  {
    if NamesItsProtocols(b) {
      forall a | InAll(a) && NoHiddenZero(a, b) ensures Encompasses(a, b) <==> Subsumes(a, b) {
        EncompassesIsSubsumption(a, b, p, inPort);
      }
    } else {
      var f, v := if Get(b, DlVlan) == Some(VLAN_NONE) && Get(b, DlVlanPcp).None? then DlVlanPcp else DlType,
                  if Get(b, DlVlan) == Some(VLAN_NONE) && Get(b, DlVlanPcp).None? then 0 else IP_TYPE;
      ImpliedFieldIsRefused(b, f, v);
      var a := Set(b, f, Some(v));
      assert !(Encompasses(a, b) <==> Subsumes(a, b));
    }
  }

  /** The test decides subsumption by b of every match at all exactly when b also names both
      Ethernet addresses. */
  lemma DecidesAllExactly(b: Match, p: Packet, inPort: nat)
    requires InAll(b) && AdmittedBy(b, p, inPort)
    ensures (forall a {:trigger Encompasses(a, b)} :: InAll(a) ==> (Encompasses(a, b) <==> Subsumes(a, b)))
      <==> NamesItsProtocols(b) && Get(b, DlSrc).Some? && Get(b, DlDst).Some?
  {
    DecidesExactlyWhenNamed(b, p, inPort);
    if Get(b, DlSrc).None? { HiddenZeroIsRefused(b, DlSrc); }
    if Get(b, DlDst).None? { HiddenZeroIsRefused(b, DlDst); }
  }

  /** Every packet b admits has this value in a field that b hides. */
  ghost predicate Implies(b: Match, f: Field, v: nat)
    requires !IsNetwork(f)
  {
    forall q, port {:trigger Meets(b, q, port)} :: WellTyped(q) && Fits(q, port) && Meets(b, q, port) ==>
      FieldOf(q, port, f) == Some(v)
  }

  /** Naming the value changes nothing about the packets, but the test refuses the result. */
  lemma RedundantFieldIsRefused(b: Match, f: Field, v: nat)
    requires InAll(b) && !IsNetwork(f) && Get(b, f).None? && (Implies(b, f, v) || IsBlank(f, Some(v)))
    ensures var a := Set(b, f, Some(v)); InAll(a) && Subsumes(a, b) && !Encompasses(a, b)
  {
    var a := Set(b, f, Some(v));
    forall g: Field
      ensures Get(a, g) == if g == f then Some(v) else Get(b, g)
      ensures IsNetwork(g) ==> GetNetwork(a, g) == GetNetwork(b, g)
    {
      SetReadsBack(b, f, Some(v), g);
    }
    forall q, port | AdmittedBy(b, q, port) ensures Admits(a, q, port) {
      AdmitsIsMeets(b, q, port);
      AdmitsIsMeets(a, q, port);
      MeetsOneMore(a, b, f, v, q, port);
    }
    if Encompasses(a, b) {
      HiddenStaysHidden(a, b, f);
      assert false;
    }
  }

  lemma MeetsOneMore(a: Match, b: Match, f: Field, v: nat, q: Packet, port: nat)
    requires Meets(b, q, port) && !IsNetwork(f) && (FieldOf(q, port, f) == Some(v) || IsBlank(f, Some(v)))
    requires forall g: Field :: Get(a, g) == if g == f then Some(v) else Get(b, g)
    requires forall g: Field :: IsNetwork(g) ==> GetNetwork(a, g) == GetNetwork(b, g)
    ensures Meets(a, q, port)
  {
    forall g: Field | !IsNetwork(g) ensures FieldAdmits(g, Get(a, g), FieldOf(q, port, g)) {
      assert FieldAdmits(g, Get(b, g), FieldOf(q, port, g));
    }
    forall g: Field | IsNetwork(g) ensures PrefixAdmits(GetNetwork(a, g), NetworkOf(q, g)) {
      assert PrefixAdmits(GetNetwork(b, g), NetworkOf(q, g));
    }
  }

  /** Fields of IP imply its type, and untagged packets have zero priority bits. */
  lemma ImpliedFieldIsRefused(b: Match, f: Field, v: nat)
    requires InAll(b) && Get(b, f).None?
    requires || (f == DlType && v == IP_TYPE && (Get(b, NwTos).Some? || Get(b, TpSrc).Some? || Get(b, TpDst).Some?))
             || (f == DlVlanPcp && v == 0 && Get(b, DlVlan) == Some(VLAN_NONE))
    ensures var a := Set(b, f, Some(v)); InAll(a) && NoHiddenZero(a, b) && Subsumes(a, b) && !Encompasses(a, b)
  {
    forall q, port | WellTyped(q) && Fits(q, port) && Meets(b, q, port) ensures FieldOf(q, port, f) == Some(v) {
      forall g: Field | !IsNetwork(g) ensures FieldAdmits(g, Get(b, g), FieldOf(q, port, g)) {}
    }
    RedundantFieldIsRefused(b, f, v);
    SetReadsBack(b, f, Some(v), DlSrc);
    SetReadsBack(b, f, Some(v), DlDst);
  }

  lemma HiddenZeroIsRefused(b: Match, f: Field)
    requires InAll(b) && (f == DlSrc || f == DlDst) && Get(b, f).None?
    ensures var a := Set(b, f, Some(0)); InAll(a) && Subsumes(a, b) && !Encompasses(a, b)
  {
    RedundantFieldIsRefused(b, f, 0);
  }

  function FieldAt(i: nat): (f: Field)
    requires i in ALL.bits
    ensures !IsNetwork(f) && Bit(f) == i
  {
    if i == 0 then InPort else if i == 1 then DlVlan else if i == 2 then DlSrc else if i == 3 then DlDst
    else if i == 4 then DlType else if i == 5 then NwProto else if i == 6 then TpSrc else if i == 7 then TpDst
    else if i == 20 then DlVlanPcp else NwTos
  }

  /** Without its protocols named the test is stricter than subsumption: only IP packets have
      transport ports, so "IP with source port 80" admits everything "source port 80" does,
      but matches_with_wildcards says no. */
  lemma UnnamedProtocolIsRefused()
    ensures var b := Set(FRESH, TpSrc, Some(80));
      var a := Set(b, DlType, Some(IP_TYPE));
      Subsumes(a, b) && !Encompasses(a, b) && !NamesItsProtocols(b)
  {
    var b := Set(FRESH, TpSrc, Some(80));
    SetReadsBack(FRESH, TpSrc, Some(80), TpSrc);
    SetReadsBack(FRESH, TpSrc, Some(80), DlType);
    ImpliedFieldIsRefused(b, DlType, IP_TYPE);
  }

  /** A match on the source address 00:00:00:00:00:00 admits every packet, yet it is said not to
      encompass the match that asks for nothing. */
  lemma ZeroAddressIsRefused(p: Packet, inPort: nat)
    ensures var a := Set(FRESH, DlSrc, Some(0));
      Admits(a, p, inPort) && Subsumes(a, FRESH) && !Encompasses(a, FRESH) && NamesItsProtocols(FRESH)
  {
    FreshHides(DlSrc);
    HiddenZeroIsRefused(FRESH, DlSrc);
    var a := Set(FRESH, DlSrc, Some(0));
    forall g: Field ensures AsksNothing(a, g) { ZeroSourceAsksNothing(g); }
    forall g: Field ensures Get(FRESH, g).None? { FreshHides(g); }
    AdmitsEverything(a, p, inPort);
  }

  predicate AsksNothing(m: Match, f: Field) {
    IsOpen(f, Get(m, f)) && (IsNetwork(f) ==> GetNetwork(m, f) == Anything)
  }

  lemma ZeroSourceAsksNothing(f: Field)
    ensures AsksNothing(Set(FRESH, DlSrc, Some(0)), f)
  {
    SetReadsBack(FRESH, DlSrc, Some(0), f);
    FreshHides(f);
  }

  lemma FreshHides(f: Field)
    ensures InAll(FRESH) && Get(FRESH, f).None? && (IsNetwork(f) ==> GetNetwork(FRESH, f) == Anything)
  {
  }

  lemma AdmitsEverything(m: Match, p: Packet, inPort: nat)
    requires forall f: Field :: AsksNothing(m, f)
    ensures Admits(m, p, inPort)
  {
    AdmitsIsMeets(m, p, inPort);
    forall f: Field | !IsNetwork(f) ensures FieldAdmits(f, Get(m, f), FieldOf(p, inPort, f)) {
      assert AsksNothing(m, f);
    }
    forall f: Field | IsNetwork(f) ensures PrefixAdmits(GetNetwork(m, f), NetworkOf(p, f)) {
      assert AsksNothing(m, f);
    }
  }
}
