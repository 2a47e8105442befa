/** Addresses with netmasks (parseCIDR, inferNetMask and IPAddr.inNetwork in
    pox/lib/addresses.py). Addresses are unsigned 32-bit numbers; a network is an address and
    its number of wildcard bits. */
module Cidr {
  import opened Options
  import opened Powers
  import opened Matches

  const ADDRESSES: nat := 0x1_0000_0000

  type Address = n: nat | n < 0x1_0000_0000

  /** The text after the slash: a number, or else a dotted netmask. */
  datatype Suffix = Count(bits: int) | Dotted(mask: Address)

  datatype Text = Plain(address: Address) | Slash(address: Address, suffix: Suffix)

  datatype Error =
    | HostPartSet         // "Host part of CIDR address not compatible with network part"
    | NotCompatible       // "Netmask ... is not CIDR-compatible"
    | AssertionFailed     // the count is not between 0 and 32
    | NoClass             // inferNetMask returned nothing: a TypeError

  datatype Result = Ok(address: Address, wild: nat) | Err(error: Error)

  // ---------------------------------------------------------------- netmasks

  /** A netmask with this many wildcard bits: leading ones, then that many zeros. */
  predicate IsNetmask(mask: Address, wild: nat) {
    wild <= 32 && mask == ADDRESSES - Pow2(wild)
  }

  function TrailingZeros(x: nat, width: nat): nat
    decreases width
  {
    if width == 0 || x % 2 == 1 then 0 else 1 + TrailingZeros(x / 2, width - 1)
  }

  lemma {:induction false} LeadingOnesEndInZeros(width: nat, wild: nat)
    requires wild <= width
    ensures Pow2(width) >= Pow2(wild) && TrailingZeros(Pow2(width) - Pow2(wild), width) == wild
    decreases wild
  {
    Pow2Monotone(wild, width);
    if wild > 0 {
      LeadingOnesEndInZeros(width - 1, wild - 1);
      Halved(Pow2(width - 1) - Pow2(wild - 1));
    } else if width > 0 {
      OneLessIsOdd(Pow2(width - 1));
    }
  }

  lemma Halved(x: nat)
    ensures 2 * x % 2 == 0 && 2 * x / 2 == x
  {
  }

  lemma OneLessIsOdd(x: nat)
    requires x > 0
    ensures (2 * x - 1) % 2 == 1
  {
  }

  lemma ThirtyTwo()
    ensures Pow2(32) == ADDRESSES && Pow2(31) == 0x8000_0000
  {
    Pow2Of32();
    assert Pow2(32) == 2 * Pow2(31);
  }

  /** A netmask has one wildcard count, its number of trailing zeros. */
  lemma NetmaskCount(mask: Address, wild: nat)
    requires IsNetmask(mask, wild)
    ensures wild == TrailingZeros(mask, 32)
  {
    ThirtyTwo();
    LeadingOnesEndInZeros(32, wild);
  }

  /** A netmask by its bits: from the lowest on, wild zeros and then ones only. */
  lemma {:induction false} NetmaskBits(width: nat, wild: nat, mask: nat)
    requires mask < Pow2(width)
    ensures wild <= width && mask == Pow2(width) - Pow2(wild) <==> wild <= width && ZerosThenOnes(mask, wild, width)
    decreases width
  {
    if width > 0 && wild <= width {
      Pow2Monotone(wild, width);
      if wild > 0 {
        NetmaskBits(width - 1, wild - 1, mask / 2);
        Halved(Pow2(width - 1) - Pow2(wild - 1));
      } else {
        NetmaskBits(width - 1, 0, mask / 2);
        OneLessIsOdd(Pow2(width - 1));
      }
    }
  }

  /** Of these bits, lowest first, the first wild are 0 and the others 1. */
  predicate ZerosThenOnes(n: nat, wild: nat, width: nat)
    decreases width
  {
    width == 0 ||
    if wild > 0 then n % 2 == 0 && ZerosThenOnes(n / 2, wild - 1, width - 1)
    else n % 2 == 1 && ZerosThenOnes(n / 2, 0, width - 1)
  }

  lemma NetmaskExactly(mask: Address, wild: nat)
    ensures IsNetmask(mask, wild) <==> wild <= 32 && ZerosThenOnes(mask, wild, 32)
  {
    ThirtyTwo();
    NetmaskBits(32, wild, mask);
  }

  /** One turn of the loop below: the top bit of what is left moves into the leading ones. */
  lemma ShiftOut(m: nat, mask: nat, b: nat, low: nat)
    requires b < 32 && mask + Pow2(32 - b) == ADDRESSES + low
    requires m % ADDRESSES == low * Pow2(b) >= 0x8000_0000
    ensures low >= Pow2(31 - b)
    ensures mask + Pow2(31 - b) == ADDRESSES + (low - Pow2(31 - b))
    ensures 2 * m % ADDRESSES == (low - Pow2(31 - b)) * Pow2(b + 1)
  {
    var half, p := Pow2(31 - b), Pow2(b);
    ThirtyTwo();
    Pow2Adds(31 - b, b);
    assert half * p == 0x8000_0000;
    if low < half {
      Smaller(low, half, p);
      assert false;
    }
    assert Pow2(32 - b) == 2 * half;
    Distribute(low, half, p);
    DoubleMod(m);
  }

  lemma Smaller(x: nat, y: nat, p: nat)
    requires x < y && p > 0
    ensures x * p < y * p
  {
  }

  lemma Distribute(x: nat, y: nat, p: nat)
    requires y <= x
    ensures (x - y) * (2 * p) == 2 * (x * p) - 2 * (y * p)
  {
  }

  lemma DoubleMod(m: nat)
    ensures m % ADDRESSES >= 0x8000_0000 ==> 2 * m % ADDRESSES == 2 * (m % ADDRESSES) - ADDRESSES
    ensures m % ADDRESSES < 0x8000_0000 ==> 2 * m % ADDRESSES == 2 * (m % ADDRESSES)
  {
    var q, r := m / ADDRESSES, m % ADDRESSES;
    if r >= 0x8000_0000 {
      ModIsUnique(2 * m, 2 * q + 1, ADDRESSES, 2 * r - ADDRESSES);
    } else {
      ModIsUnique(2 * m, 2 * q, ADDRESSES, 2 * r);
    }
  }

  lemma BitTest(m: nat)
    ensures m / 0x8000_0000 % 2 == 1 <==> m % ADDRESSES >= 0x8000_0000
    ensures m % ADDRESSES < 0x8000_0000 ==> m % 0x8000_0000 == m % ADDRESSES
  {
  }

  /** The loop over a dotted netmask. The number being shifted is never cut off at 32 bits. */
  method WildcardBits(mask: Address) returns (r: Option<nat>)
    ensures r.Some? ==> IsNetmask(mask, r.value)
    ensures r.None? ==> forall w {:trigger IsNetmask(mask, w)} :: !IsNetmask(mask, w)
  {
    ThirtyTwo();
    var m: nat, b: nat := mask, 0;
    ghost var low: nat := mask;
    assert low * Pow2(0) == low;
    while m / 0x8000_0000 % 2 == 1
      invariant b <= 32 && low < Pow2(32 - b)
      invariant mask + Pow2(32 - b) == ADDRESSES + low
      invariant m % ADDRESSES == low * Pow2(b)
      decreases 32 - b
    {
      BitTest(m);
      ShiftOut(m, mask, b, low);
      low := low - Pow2(31 - b);
      m, b := 2 * m, b + 1;
    }
    BitTest(m);
    if m % 0x8000_0000 != 0 {
      NotANetmask(mask, b, low);
      return None;
    }
    assert low == 0 by { if low > 0 { Smaller(0, low, Pow2(b)); } }
    r := Some(32 - b);
  }

  /** What is left when a bit was 0 and a later one is 1. */
  lemma NotANetmask(mask: Address, b: nat, low: nat)
    requires b <= 32 && mask + Pow2(32 - b) == ADDRESSES + low
    requires 0 < low * Pow2(b) < 0x8000_0000
    ensures forall w {:trigger IsNetmask(mask, w)} :: !IsNetmask(mask, w)
  {
    ThirtyTwo();
    var p := Pow2(b);
    if b < 32 {
      Pow2Adds(31 - b, b);
      if low >= Pow2(31 - b) {
        AtLeast(low, Pow2(31 - b), p);
        assert false;
      }
    }
    forall w: nat ensures !IsNetmask(mask, w) {
      if IsNetmask(mask, w) {
        if w < 32 - b { Pow2Monotone(w, 31 - b); } else { Pow2Monotone(32 - b, w); }
        assert false;
      }
    }
  }

  lemma AtLeast(x: nat, y: nat, p: nat)
    requires x >= y
    ensures x * p >= y * p
  {
  }

  // ---------------------------------------------------------------- parseCIDR

  /** inferNetMask; experimental addresses get no answer. */
  function InferNetMask(address: Address): Option<nat> {
    if address == 0 then Some(32)
    else if address / 0x8000_0000 % 2 == 0 then Some(24)
    else if address / 0x4000_0000 % 4 == 2 then Some(16)
    else if address / 0x2000_0000 % 8 == 6 then Some(8)
    else if address / 0x1000_0000 % 16 == 14 then Some(0)
    else None
  }

  /** The classes as ranges. */
  lemma Classes(address: Address)
    ensures InferNetMask(address) ==
      if address == 0 then Some(32)
      else if address < 0x8000_0000 then Some(24)
      else if address < 0xC000_0000 then Some(16)
      else if address < 0xE000_0000 then Some(8)
      else if address < 0xF000_0000 then Some(0)
      else None
  {
  }

  /** 240.0.0.1, on which parseCIDR fails. */
  lemma ExperimentalHasNoClass()
    ensures InferNetMask(0xF000_0001) == None
  {
  }

  /** a & ((1 << b) - 1) */
  function HostPart(address: Address, wild: nat): nat { address % Pow2(wild) }

  function Check(address: Address, wild: nat): Result {
    if HostPart(address, wild) != 0 then Err(HostPartSet) else Ok(address, wild)
  }

  /** parseCIDR */
  method ParseCidr(text: Text, infer: bool) returns (r: Result)
    ensures r.Ok? ==> r.address == text.address && r.wild <= 32
    ensures text.Slash? && text.suffix.Dotted? ==> ParsedMask(text.address, text.suffix.mask, r)
    ensures text.Slash? && text.suffix.Count? ==>
      ParsedCount(text.address, text.suffix.bits, r)
    ensures text.Plain? && !infer ==> r == Ok(text.address, 0)
    ensures text.Plain? && infer ==> ParsedClass(text.address, r)
  {
    match text {
      case Plain(address) =>
        if !infer { return Ok(address, 0); }
        assert Pow2(0) == 1;
        match InferNetMask(address) {
          case None => r := Err(NoClass);
          case Some(b) =>
            if HostPart(address, b) == 0 {
              r := Check(address, b);
            } else {
              r := Check(address, 0);
            }
        }
      case Slash(address, Count(bits)) =>
        var wild := 32 - bits;
        if !(0 <= wild <= 32) { return Err(AssertionFailed); }
        r := Check(address, wild);
      case Slash(address, Dotted(mask)) =>
        var wild := WildcardBits(mask);
        match wild {
          case None => r := Err(NotCompatible);
          case Some(b) =>
            r := Check(address, b);
            NetmaskCount(mask, b);
        }
    }
  }

  /** An address with a dotted mask is accepted exactly when the mask is a block of leading
      ones and no host bit is set; the count is then the mask's number of trailing zeros. */
  ghost predicate ParsedMask(address: Address, mask: Address, r: Result) {
    var zeros := TrailingZeros(mask, 32);
    && (r.Ok? <==> IsNetmask(mask, zeros) && HostPart(address, zeros) == 0)
    && (r == Err(HostPartSet) <==> IsNetmask(mask, zeros) && HostPart(address, zeros) != 0)
    && (r.Ok? ==> r.wild == zeros)
    && (r.Err? ==> r.error.HostPartSet? || r.error.NotCompatible?)
  }

  /** An address with a count is accepted exactly for counts from 0 to 32 and without host bits. */
  ghost predicate ParsedCount(address: Address, bits: int, r: Result) {
    if !(0 <= bits <= 32) then r == Err(AssertionFailed)
    else if HostPart(address, 32 - bits) == 0 then r == Ok(address, 32 - bits)
    else r == Err(HostPartSet)
  }

  /** An address on its own is a network of its class if its host bits are 0, else one host;
      for experimental addresses there is no answer at all. */
  ghost predicate ParsedClass(address: Address, r: Result) {
    match InferNetMask(address)
    case None => r == Err(NoClass)
    case Some(b) => r == Ok(address, if HostPart(address, b) == 0 then b else 0)
  }

  // ---------------------------------------------------------------- inNetwork

  /** A pair is a network exactly when it has no host bits, and then it is the block of 2^b
      addresses from n on; otherwise no address is in it. */
  lemma NetworkIsBlock(n: Address, b: nat, x: Address)
    ensures InNetwork(x, n, b) <==> HostPart(n, b) == 0 && n <= x < n + Pow2(b)
  {
    ClearLowIsBlock(x, b, n);
  }

  /** inNetwork for a network given as text. */
  method TextInNetwork(x: Address, text: Text) returns (r: Option<bool>)
    ensures text.Slash? && text.suffix.Dotted? ==>
      var b := TrailingZeros(text.suffix.mask, 32);
      if IsNetmask(text.suffix.mask, b) && HostPart(text.address, b) == 0
      then r == Some(text.address <= x < text.address + Pow2(b))
      else r == None
    ensures text.Slash? && text.suffix.Count? ==>
      var b := 32 - text.suffix.bits;
      if 0 <= b <= 32 && HostPart(text.address, b) == 0
      then r == Some(text.address <= x < text.address + Pow2(b))
      else r == None
    ensures text.Plain? ==>
      match InferNetMask(text.address)
      case None => r == None
      case Some(b) =>
        r == Some(if HostPart(text.address, b) == 0 then text.address <= x < text.address + Pow2(b)
                  else x == text.address)
  {
    assert Pow2(0) == 1;
    var parsed := ParseCidr(text, true);
    match parsed {
      case Err(_) => r := None;
      case Ok(n, b) =>
        NetworkIsBlock(n, b, x);
        r := Some(InNetwork(x, n, b));
    }
  }
}
