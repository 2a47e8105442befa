/** The mutable message objects: ofp_match with its setters and unpack, and ofp_flow_mod whose
    pack writes the length attribute and the max_len fields of its output actions. */
module OfpObjects {
  import opened Options
  import opened Bytes
  import opened Matches
  import opened MatchWire
  import P = Packets
  import opened Actions
  import opened FlowMods
  import opened WireLayouts

  class OfpMatch {
    var wildcards: Word
    var raw: map<Field, nat>

    function View(): Match
      reads this
    {
      Match(wildcards, raw)
    }

    constructor ()
      ensures View() == FRESH
    {
      wildcards := Normalize(ALL);
      raw := map[];
    }

    /** __setattr__ for a field other than the addresses */
    method SetAttribute(f: Field, value: Option<nat>)
      requires !IsNetwork(f)
      modifies this
      ensures View() == Set(old(View()), f, value)
    {
      if value.None? {
        raw := raw[f := 0];
        wildcards := wildcards.(bits := wildcards.bits + {Bit(f)});
      } else {
        raw := raw[f := value.value];
        wildcards := wildcards.(bits := wildcards.bits - {Bit(f)});
      }
    }

    /** set_nw_src, set_nw_dst */
    method SetAddress(f: Field, value: Option<Cidr>)
      requires IsNetwork(f)
      modifies this
      ensures View() == SetNetwork(old(View()), f, value)
    {
      if value.None? {
        raw := raw[NwSrc := 0];
        wildcards := WithCount(wildcards, f, 0);
        wildcards := WithCount(wildcards, f, 32);
      } else {
        raw := raw[f := value.value.addr];
        wildcards := WithCount(wildcards, f, 0);
        wildcards := WithCount(wildcards, f, value.value.ignored);
      }
    }

    /** from_packet, on a fresh match */
    method FillFromPacket(p: P.Packet, inPort: nat)
      requires View() == FRESH
      modifies this
      ensures View() == P.FromPacket(p, inPort)
    {
      FillEthernet(p, inPort);
      match p.payload
      case Ip(src, dst, proto, tos, ports) =>
        SetAddress(NwSrc, Some(Cidr(src, 0)));
        SetAddress(NwDst, Some(Cidr(dst, 0)));
        SetAttribute(NwProto, Some(proto));
        SetAttribute(NwTos, Some(tos));
        if ports.Ports? {
          SetAttribute(TpSrc, Some(ports.src));
          SetAttribute(TpDst, Some(ports.dst));
        }
      case Arp(opcode, src, dst) =>
        if opcode <= 255 {
          SetAttribute(NwProto, Some(opcode));
          SetAddress(NwSrc, Some(Cidr(src, 0)));
          SetAddress(NwDst, Some(Cidr(dst, 0)));
        }
      case Opaque =>
    }

    method FillEthernet(p: P.Packet, inPort: nat)
      requires View() == FRESH
      modifies this
      ensures View() == P.FromEthernet(p, inPort)
    {
      SetAttribute(InPort, Some(inPort));
      SetAttribute(DlSrc, Some(p.src));
      SetAttribute(DlDst, Some(p.dst));
      SetAttribute(DlType, Some(p.etherType));
      if p.vlan.Tagged? {
        SetAttribute(DlVlan, Some(p.vlan.id));
        SetAttribute(DlVlanPcp, Some(p.vlan.pcp));
      } else {
        SetAttribute(DlVlan, Some(P.VLAN_NONE));
        SetAttribute(DlVlanPcp, Some(0));
      }
    }

    /** unpack with flow_mod=True: a short buffer changes nothing and is returned whole. */
    method UnpackFrom(b: seq<Byte>) returns (rest: seq<Byte>)
      modifies this
      ensures |b| < 40 ==> View() == old(View()) && rest == b
      ensures |b| >= 40 ==> View() == UnpackMatch(b) && rest == b[40..]
      ensures |b| >= 40 ==> ReadsAs(MatchAt(b), View())
    {
      if |b| < 40 { return b; }
      LayoutSize();
      UnpackedMatch(b);
      var v := Unpack(LAYOUT, b);
      raw := RawFromWire(v);
      wildcards := Normalize(UnwireWildcards(Decode(v[0]), v[7], v[9]));
      return b[40..];
    }
  }

  class OfpFlowMod {
    var fm: FlowMod
    var length: nat

    constructor (fm: FlowMod)
      ensures this.fm == fm
    {
      this.fm := fm;
      length := 8;
    }

    /** pack: afterwards the object itself holds the packed length and the normal max_len
        fields, so its actions are exactly those a receiver reads. */
    method PackIt() returns (b: seq<Byte>)
      requires Sendable(fm)
      modifies this
      ensures b == PackFlowMod(old(fm)) && FlowModWritten(old(fm), b, PackActions(old(fm).actions))
      ensures length == |b|
      ensures fm == old(fm).(actions := NormalActions(old(fm).actions))
    {
      b := PackInPlace();
      PackedFlowMod(old(fm));
    }

    method PackInPlace() returns (b: seq<Byte>)
      requires Sendable(fm)
      modifies this
      ensures b == PackFlowMod(old(fm)) && length == |b|
      ensures fm == old(fm).(actions := NormalActions(old(fm).actions))
    {
      length := LengthOfFlowMod(fm);
      b := PackFront(length);
      var packed, actions := PackActionList(fm.actions);
      ActionLengthsArePacked(fm.actions);
      b := b + packed;
      fm := fm.(actions := actions);
    }

    method PackFront(length: nat) returns (b: seq<Byte>)
      requires Sendable(fm)
      ensures b == Pack(OF_HEADER, HeaderValues(fm, length)) + PackMatch(fm.fmMatch) + Pack(BODY, BodyValues(fm))
      ensures |b| == FIXED_LENGTH
    {
      LayoutSizes();
      b := Pack(OF_HEADER, HeaderValues(fm, length));
      b := b + PackMatch(fm.fmMatch);
      b := b + Pack(BODY, BodyValues(fm));
    }
  }

  /** The loop of pack over the actions; each one packed loses a max_len that is not towards
      the controller. */
  method PackActionList(all: seq<Action>) returns (packed: seq<Byte>, done: seq<Action>)
    requires AllWellFormed(all)
    ensures packed == PackActions(all) && done == NormalActions(all)
  {
    var actions := all;
    packed, done := [], [];
    while actions != []
      invariant AllWellFormed(actions)
      invariant packed + PackActions(actions) == PackActions(all)
      invariant done + NormalActions(actions) == NormalActions(all)
      decreases |actions|
    {
      Associative(packed, PackAction(actions[0]), PackActions(actions[1..]));
      Append(done, Normal(actions[0]), NormalActions(actions[1..]));
      packed := packed + PackAction(actions[0]);
      done := done + [Normal(actions[0])];
      actions := actions[1..];
    }
    assert packed + [] == packed && done + [] == done;
  }

  lemma Associative(x: seq<Byte>, y: seq<Byte>, z: seq<Byte>)
    ensures (x + y) + z == x + (y + z)
  {
  }

  /** What the receiver's object shows equals the sender's object after packing, up to the
      normal form of the match and the buffer id. */
  method SendAndReceive(message: OfpFlowMod, rest: seq<Byte>) returns (received: Unpacked)
    requires Sendable(message.fm)
    modifies message
    ensures received.Unpacked? && received.rest == rest
    ensures received.fm == message.fm.(fmMatch := NormalForm(message.fm.fmMatch),
                                       bufferId := ReadBufferId(WireBufferId(message.fm.bufferId)))
  {
    ghost var sent := message.fm;
    var b := message.PackIt();
    FlowModRoundTrip(sent, rest);
    received := UnpackFlowMod(b + rest);
  }
}
