/** The OpenFlow 1.0 match (class ofp_match in pox/openflow/libopenflow_01.py). A match keeps
    a raw value per field and one wildcard word that hides fields; the two network addresses
    carry a six-bit count of ignored low bits instead of one bit. */
module Matches {
  import opened Options
  import opened Powers

  datatype Field =
    | InPort | DlVlan | DlSrc | DlDst | DlType | NwProto | TpSrc | TpDst | DlVlanPcp | NwTos | NwSrc | NwDst

  predicate IsNetwork(f: Field) { f == NwSrc || f == NwDst }

  /** The 32-bit wildcard word, split the way its masks split it: the positions of its set
      single bits, and the two six-bit counts at bits 8 and 14. */
  datatype Word = Word(bits: set<nat>, srcCount: nat, dstCount: nat)

  /** Position of the wildcard bit of a field (ofp_flow_wildcards_rev_map). */
  function Bit(f: Field): nat
    requires !IsNetwork(f)
  {
    match f
    case InPort => 0
    case DlVlan => 1
    case DlSrc => 2
    case DlDst => 3
    case DlType => 4
    case NwProto => 5
    case TpSrc => 6
    case TpDst => 7
    case DlVlanPcp => 20
    case NwTos => 21
  }

  /** Positions outside the two counts. */
  predicate SingleBit(p: nat) { p < 8 || 20 <= p < 32 }

  predicate ValidWord(w: Word) {
    (forall p :: p in w.bits ==> SingleBit(p)) && w.srcCount < 64 && w.dstCount < 64
  }

  function Count(w: Word, f: Field): nat
    requires IsNetwork(f)
  {
    if f == NwSrc then w.srcCount else w.dstCount
  }

  function WithCount(w: Word, f: Field, n: nat): Word
    requires IsNetwork(f)
  {
    if f == NwSrc then w.(srcCount := n) else w.(dstCount := n)
  }

  /** raw is the object's dictionary of underscored attributes; an absent entry is the default 0. */
  datatype Match = Match(wildcards: Word, raw: map<Field, nat>)

  function Raw(m: Match, f: Field): nat {
    if f in m.raw then m.raw[f] else 0
  }

  /** All bits of the field's mask are set. For an address that is the top bit of its count. */
  predicate Hidden(w: Word, f: Field) {
    if IsNetwork(f) then Count(w, f) >= 32 else Bit(f) in w.bits
  }

  /** __getattr__: a hidden field reads as None. */
  function Get(m: Match, f: Field): Option<nat> {
    if Hidden(m.wildcards, f) then None else Some(Raw(m, f))
  }

  /** What get_nw_src and get_nw_dst return: (None, 0), or an address with a prefix length,
      kept here as the number of ignored low bits. */
  datatype Prefix = Anything | Net(addr: nat, ignored: nat)

  function GetNetwork(m: Match, f: Field): Prefix
    requires IsNetwork(f)
  {
    if Hidden(m.wildcards, f) then Anything else Net(Raw(m, f), Count(m.wildcards, f))
  }

  /** IPAddr.inNetwork for a pair (network, wildcard bits). */
  predicate InNetwork(x: nat, network: nat, ignored: nat) {
    ClearLow(x, ignored) == network
  }

  /** A network prefix of self admits the prefix of other. */
  predicate PrefixAdmits(self: Prefix, other: Prefix) {
    match self
    case Anything => true
    case Net(addr, ignored) => other.Net? && other.ignored <= ignored && InNetwork(other.addr, addr, ignored)
  }

  /** An Ethernet address of six zero bytes compares equal to None. */
  predicate IsBlank(f: Field, value: Option<nat>) { (f == DlSrc || f == DlDst) && value == Some(0) }

  /** The field is not asked for: hidden, or an Ethernet address that passes for None. */
  predicate IsOpen(f: Field, value: Option<nat>) { value.None? || IsBlank(f, value) }

  /** match_fail, negated. */
  predicate FieldAdmits(f: Field, self: Option<nat>, other: Option<nat>) {
    IsOpen(f, self) || self == other
  }

  /** __eq__ */
  predicate Same(a: Match, b: Match) {
    a.wildcards == b.wildcards && forall f: Field :: Get(a, f) == Get(b, f)
  }

  /** Every field test of matches_with_wildcards. */
  predicate FieldsAdmit(a: Match, b: Match) {
    && (forall f: Field :: !IsNetwork(f) ==> FieldAdmits(f, Get(a, f), Get(b, f)))
    && PrefixAdmits(GetNetwork(a, NwSrc), GetNetwork(b, NwSrc))
    && PrefixAdmits(GetNetwork(a, NwDst), GetNetwork(b, NwDst))
  }

  /** matches_with_wildcards; the bit test asks that no single bit is set in other only. */
  predicate Encompasses(a: Match, b: Match, considerOtherWildcards: bool := true) {
    || Same(a, b)
    || ((considerOtherWildcards ==> b.wildcards.bits <= a.wildcards.bits) && FieldsAdmit(a, b))
  }

  // ---------------------------------------------------------------- a preorder

  lemma PrefixTransitive(a: Prefix, b: Prefix, c: Prefix)
    requires PrefixAdmits(a, b) && PrefixAdmits(b, c)
    ensures PrefixAdmits(a, c)
  {
    if a.Net? {
      ClearLowTwice(c.addr, b.ignored, a.ignored);
    }
  }

  lemma FieldsTransitive(a: Match, b: Match, c: Match)
    requires FieldsAdmit(a, b) && FieldsAdmit(b, c)
    ensures FieldsAdmit(a, c)
  {
    PrefixTransitive(GetNetwork(a, NwSrc), GetNetwork(b, NwSrc), GetNetwork(c, NwSrc));
    PrefixTransitive(GetNetwork(a, NwDst), GetNetwork(b, NwDst), GetNetwork(c, NwDst));
    forall f: Field | !IsNetwork(f) ensures FieldAdmits(f, Get(a, f), Get(c, f)) {
      assert FieldAdmits(f, Get(a, f), Get(b, f)) && FieldAdmits(f, Get(b, f), Get(c, f));
    }
  }

  /** Equal matches are interchangeable in every test. */
  lemma SameFields(a: Match, b: Match, c: Match)
    requires Same(a, b)
    ensures FieldsAdmit(a, c) <==> FieldsAdmit(b, c)
    ensures FieldsAdmit(c, a) <==> FieldsAdmit(c, b)
  {
    assert Get(a, NwSrc) == Get(b, NwSrc) && Get(a, NwDst) == Get(b, NwDst);
    forall f: Field ensures Get(a, f) == Get(b, f) {}
  }

  /** matches_with_wildcards is transitive, and a packet (whose own wildcards are not
      considered) that the smaller match admits is admitted by the larger one. */
  lemma EncompassesTransitive(a: Match, b: Match, c: Match, consider: bool)
    requires Encompasses(a, b) && Encompasses(b, c, consider)
    ensures Encompasses(a, c, consider)
  {
    if Same(a, b) {
      SameFields(a, b, c);
      if Same(b, c) {
        forall f: Field ensures Get(a, f) == Get(c, f) { assert Get(a, f) == Get(b, f); }
      }
    } else if Same(b, c) {
      SameFields(b, c, a);
    } else {
      FieldsTransitive(a, b, c);
    }
  }

  // ---------------------------------------------------------------- setting fields

  /** __setattr__ for a field hidden by a single bit. */
  function Set(m: Match, f: Field, value: Option<nat>): Match
    requires !IsNetwork(f)
  {
    var w := m.wildcards;
    match value
    case None => Match(w.(bits := w.bits + {Bit(f)}), m.raw[f := 0])
    case Some(v) => Match(w.(bits := w.bits - {Bit(f)}), m.raw[f := v])
  }

  /** An address with the number of ignored low bits, after _make_addr has clamped it to 0..32. */
  datatype Cidr = Cidr(addr: nat, ignored: nat)

  /** set_nw_src and set_nw_dst. Clearing either one resets the raw source address. */
  function SetNetwork(m: Match, f: Field, value: Option<Cidr>): Match
    requires IsNetwork(f)
  {
    match value
    case None => Match(WithCount(m.wildcards, f, 32), m.raw[NwSrc := 0])
    case Some(c) => Match(WithCount(m.wildcards, f, c.ignored), m.raw[f := c.addr])
  }

  function Min(a: nat, b: nat): nat { if a < b then a else b }

  /** _normalize_wildcards: counts above 32 become 32. */
  function Normalize(w: Word): Word {
    w.(srcCount := Min(w.srcCount, 32), dstCount := Min(w.dstCount, 32))
  }

  /** OFPFW_ALL, and ofp_match() with everything wildcarded. */
  const ALL := Word({0, 1, 2, 3, 4, 5, 6, 7, 20, 21}, 63, 63)
  const FRESH := Match(Normalize(ALL), map[])

  /** Setting a field reads back, and no other field changes. */
  lemma SetReadsBack(m: Match, f: Field, value: Option<nat>, g: Field)
    requires !IsNetwork(f)
    ensures Get(Set(m, f, value), g) == if f == g then value else Get(m, g)
    ensures IsNetwork(g) ==> GetNetwork(Set(m, f, value), g) == GetNetwork(m, g)
  {
  }

  /** An address set with a prefix reads back (a zero-length prefix hides it), and no other
      field changes. */
  lemma SetNetworkReadsBack(m: Match, f: Field, c: Cidr, g: Field)
    requires IsNetwork(f) && c.ignored <= 32
    ensures var m' := SetNetwork(m, f, Some(c));
      if f == g then GetNetwork(m', f) == if c.ignored == 32 then Anything else Net(c.addr, c.ignored)
      else Get(m', g) == Get(m, g) && (IsNetwork(g) ==> GetNetwork(m', g) == GetNetwork(m, g))
  {
  }

  /** Clearing an address hides it. The destination setter also zeroes the stored source
      address, so it leaves the other fields as they were exactly when the source was hidden
      or already zero. */
  lemma ClearingAnAddress(m: Match, f: Field)
    requires IsNetwork(f)
    ensures var m' := SetNetwork(m, f, None);
      && GetNetwork(m', f) == Anything
      && ((forall g: Field :: g != f ==> Get(m', g) == Get(m, g))
          <==> f == NwSrc || Get(m, NwSrc) in {None, Some(0)})
  {
  }

  /** A source address of 1, after the destination was cleared. */
  lemma ClearingLosesTheSource()
    ensures var m := SetNetwork(FRESH, NwSrc, Some(Cidr(1, 0)));
      Get(m, NwSrc) == Some(1) && Get(SetNetwork(m, NwDst, None), NwSrc) == Some(0)
  {
  }
}
