/** The Internet checksum (cksum in router/sr_utils.c) and the header fields it protects when
    router/sr_router.c accepts and forwards a packet. */
module Checksums {
  import opened Bytes

  const WORD: nat := 0x10000
  const UINT32: nat := 0x1_0000_0000

  /** Byte order of the machine the router runs on. */
  datatype Host = LittleEndian | BigEndianHost

  type Word16 = n: nat | n < 0x10000

  /** The value of two bytes, high byte first. */
  function Word(high: int, low: int): int { high * 256 + low }

  /** htons and ntohs */
  function Htons(host: Host, x: Word16): Word16 {
    if host.LittleEndian? then Word(x % 256, x / 256) else x
  }

  /** A 16-bit field as the machine writes and reads it. */
  function StoreField(host: Host, x: Word16): (r: seq<Byte>)
    ensures |r| == 2
  {
    if host.LittleEndian? then [x % 256, x / 256] else [x / 256, x % 256]
  }

  function LoadField(host: Host, b0: Byte, b1: Byte): Word16 {
    if host.LittleEndian? then Word(b1, b0) else Word(b0, b1)
  }

  // ---------------------------------------------------------------- ones' complement sums

  /** The 16-bit words of the data added up; a last single byte is the high half of a word. */
  function WordSum(data: seq<Byte>): nat {
    if |data| == 0 then 0
    else if |data| == 1 then Word(data[0], 0)
    else Word(data[0], data[1]) + WordSum(data[2..])
  }

  /** Carries added back in until 16 bits remain. */
  function Fold(sum: nat): nat {
    if sum <= 0xffff then sum else Fold(sum / WORD + sum % WORD)
  }

  /** Folding ends in 16 bits, keeps the sum modulo 65535, and is 0 for 0 alone: of the two
      ones' complement zeros every other multiple of 65535 becomes 0xffff. */
  lemma {:induction false} FoldIsOnesComplement(sum: nat)
    ensures Fold(sum) == if sum == 0 then 0 else 1 + (sum - 1) % 65535
    decreases sum
  {
    if sum > 0xffff {
      var q, r := sum / WORD, sum % WORD;
      FoldIsOnesComplement(q + r);
      assert sum - 1 == 65535 * q + (q + r - 1);
      AddMultiple(q + r - 1, q);
    }
  }

  lemma AddMultiple(x: nat, k: nat)
    ensures (65535 * k + x) % 65535 == x % 65535
    decreases k
  {
  }

  lemma {:induction false} WordSumBound(data: seq<Byte>)
    ensures WordSum(data) <= |data| / 2 * 65535 + |data| % 2 * 65280
  {
    if |data| >= 2 { WordSumBound(data[2..]); }
  }

  lemma {:induction false} WordSumOfOnes(data: seq<Byte>)
    requires forall i :: 0 <= i < |data| ==> data[i] == 255
    ensures WordSum(data) == |data| / 2 * 65535 + |data| % 2 * 65280
  {
    if |data| >= 2 { WordSumOfOnes(data[2..]); }
  }

  /** The 32-bit accumulator cannot overflow exactly for buffers of up to 131074 bytes. */
  lemma AccumulatorSuffices(length: nat)
    ensures (forall data: seq<Byte> :: |data| == length ==> WordSum(data) < UINT32) <==> length <= 131074
  {
    forall data: seq<Byte> | |data| == length <= 131074
      ensures WordSum(data) < UINT32
    {
      WordSumBound(data);
    }
    if length > 131074 {
      var ones: seq<Byte> := seq(length, i => 255);
      WordSumOfOnes(ones);
      assert |ones| == length && WordSum(ones) >= UINT32;
    }
  }

  /** One byte more than that, all ones, does overflow it. */
  lemma AccumulatorOverflows(data: seq<Byte>)
    requires |data| == 131075 && forall i :: 0 <= i < |data| ==> data[i] == 255
    ensures WordSum(data) >= UINT32
  {
    WordSumOfOnes(data);
  }

  // ---------------------------------------------------------------- cksum

  function NonZero(x: Word16): Word16 { if x == 0 then 0xffff else x }

  /** What has to be added to a sum to fill it up to 0xffff. */
  function Complement(sum: nat): (r: Word16)
    ensures r > 0
  {
    FoldIsOnesComplement(sum);
    NonZero(65535 - Fold(sum))
  }

  /** A word other than 0 completes a sum exactly when it is the sum's complement. */
  lemma ComplementCompletes(sum: nat, f: Word16)
    requires f > 0
    ensures Fold(sum + f) == 0xffff <==> f == Complement(sum)
  {
    FoldIsOnesComplement(sum);
    if sum == 0 {
      FoldIsOnesComplement(f);
      SmallRemainder(f - 1);
    } else {
      FoldOfMore(sum, f);
    }
  }

  lemma FoldOfMore(sum: nat, f: Word16)
    requires sum > 0
    ensures Fold(sum) <= 0xffff
    ensures Fold(sum + f) == if Fold(sum) + f <= 65535 then Fold(sum) + f else Fold(sum) + f - 65535
  {
    FoldIsOnesComplement(sum);
    FoldIsOnesComplement(sum + f);
    var q, r := (sum - 1) / 65535, (sum - 1) % 65535;
    assert sum + f - 1 == 65535 * q + (r + f);
    AddMultiple(r + f, q);
    SmallRemainder(r + f);
  }

  lemma SmallRemainder(x: nat)
    requires x < 131070
    ensures x % 65535 == if x < 65535 then x else x - 65535
  {
  }

  /** What cksum returns. */
  function Checksum(host: Host, data: seq<Byte>): Word16 {
    Htons(host, Complement(WordSum(data) % UINT32))
  }

  /** The low half of ~x for an unsigned 32-bit x. */
  function Inverted(x: nat): Word16
    requires x < UINT32
  {
    (UINT32 - 1 - x) % WORD
  }

  lemma HtonsOfNonZero(host: Host, x: Word16)
    ensures NonZero(Htons(host, x)) == Htons(host, NonZero(x))
    ensures Htons(host, Htons(host, x)) == x
  {
    SplitWord(x);
  }

  lemma SplitWord(x: Word16)
    ensures x == Word(x / 256, x % 256)
    ensures Word(x % 256, x / 256) / 256 == x % 256 && Word(x % 256, x / 256) % 256 == x / 256
  {
  }

  /** cksum */
  method Cksum(host: Host, data: array<Byte>, at: nat, length: nat) returns (r: Word16)
    requires at + length <= data.Length
    ensures r == Checksum(host, data[at..at + length])
  {
    var total := Accumulate(data, at, length);
    var sum := FoldCarries(total);
    InvertedIsComplement(host, total);
    r := Htons(host, Inverted(sum));
    if r == 0 {
      r := 0xffff;
    }
  }

  /** Its last loop. */
  method FoldCarries(total: nat) returns (sum: nat)
    ensures sum == Fold(total) && sum <= 0xffff
  {
    sum := total;
    while sum > 0xffff
      invariant Fold(sum) == Fold(total)
      decreases sum
    {
      sum := sum / WORD + sum % WORD;
    }
  }

  lemma InvertedIsComplement(host: Host, total: nat)
    ensures Fold(total) <= 0xffff
    ensures NonZero(Htons(host, Inverted(Fold(total)))) == Htons(host, Complement(total))
  {
    FoldIsOnesComplement(total);
    InvertedWord(Fold(total));
    HtonsOfNonZero(host, 65535 - Fold(total));
  }

  lemma InvertedWord(x: Word16)
    ensures Inverted(x) == 65535 - x
  {
  }

  /** Its first loop, with the wrap-around of the 32-bit accumulator, and what follows it. */
  method Accumulate(data: array<Byte>, at: nat, length: nat) returns (sum: nat)
    requires at + length <= data.Length
    ensures sum == WordSum(data[at..at + length]) % UINT32
  {
    var p;
    sum, p := AddWords(data, at, length);
    if p < at + length {
      assert data[p..at + length] == [data[p]];
      sum := (sum + Word(data[p], 0)) % UINT32;
    }
  }

  method AddWords(data: array<Byte>, at: nat, length: nat) returns (sum: nat, p: nat)
    requires at + length <= data.Length
    ensures at <= p <= at + length <= p + 1 && sum < UINT32
    ensures StillToAdd(sum, data[p..at + length], data[at..at + length])
  {
    var len := length;
    sum, p := 0, at;
    while len >= 2
      invariant at <= p && p + len == at + length
      invariant sum < UINT32
      invariant StillToAdd(sum, data[p..at + length], data[at..at + length])
      decreases len
    {
      OneMoreWord(sum, data[p..at + length], data[at..at + length]);
      assert data[p..at + length][2..] == data[p + 2..at + length];
      sum := (sum + Word(data[p], data[p + 1])) % UINT32;
      p, len := p + 2, len - 2;
    }
  }

  /** With what is left the accumulator comes to the sum of everything. */
  predicate StillToAdd(sum: nat, left: seq<Byte>, whole: seq<Byte>) {
    (sum + WordSum(left)) % UINT32 == WordSum(whole) % UINT32
  }

  lemma OneMoreWord(sum: nat, left: seq<Byte>, whole: seq<Byte>)
    requires |left| >= 2 && StillToAdd(sum, left, whole)
    ensures StillToAdd((sum + Word(left[0], left[1])) % UINT32, left[2..], whole)
  {
    WrapAround(sum + Word(left[0], left[1]), WordSum(left[2..]));
  }

  lemma WrapAround(x: nat, y: nat)
    ensures (x % UINT32 + y) % UINT32 == (x + y) % UINT32
  {
  }

  // ---------------------------------------------------------------- a stored checksum

  function WithField(data: seq<Byte>, at: nat, b0: Byte, b1: Byte): seq<Byte>
    requires at + 1 < |data|
  {
    data[at := b0][at + 1 := b1]
  }

  /** The two bytes of a field at an even offset are one word of the sum. */
  lemma {:induction false} FieldInSum(data: seq<Byte>, at: nat, b0: Byte, b1: Byte)
    requires at % 2 == 0 && at + 1 < |data|
    ensures WordSum(WithField(data, at, b0, b1)) + Word(data[at], data[at + 1]) == WordSum(data) + Word(b0, b1)
    decreases |data|
  {
    var changed := WithField(data, at, b0, b1);
    if at == 0 {
      assert changed[2..] == data[2..];
    } else {
      FieldInSum(data[2..], at - 2, b0, b1);
      assert changed[2..] == WithField(data[2..], at - 2, b0, b1);
    }
  }

  function Zeroed(data: seq<Byte>, at: nat): seq<Byte>
    requires at + 1 < |data|
  {
    WithField(data, at, 0, 0)
  }

  function Stored(host: Host, data: seq<Byte>, at: nat, x: Word16): seq<Byte>
    requires at + 1 < |data|
  {
    WithField(data, at, StoreField(host, x)[0], StoreField(host, x)[1])
  }

  ghost predicate SumsToOnes(data: seq<Byte>) { Fold(WordSum(data)) == 0xffff }

  /** On either kind of machine the checksum appears in the packet high byte first. */
  lemma StoredBytes(host: Host, x: Word16)
    ensures StoreField(host, Htons(host, x)) == [x / 256, x % 256]
    ensures LoadField(host, x / 256, x % 256) == Htons(host, x)
    ensures LoadField(host, StoreField(host, x)[0], StoreField(host, x)[1]) == x
  {
    SplitWord(x);
  }

  /** Which bytes in a zeroed field make the data sum to 0xffff. */
  lemma FillingIn(zeroed: seq<Byte>, at: nat, b0: Byte, b1: Byte)
    requires at % 2 == 0 && at + 1 < |zeroed| && zeroed[at] == zeroed[at + 1] == 0
    requires 0 < Word(b0, b1) <= 0xffff
    ensures SumsToOnes(WithField(zeroed, at, b0, b1)) <==> Word(b0, b1) == Complement(WordSum(zeroed))
  {
    FieldInSum(zeroed, at, b0, b1);
    ComplementCompletes(WordSum(zeroed), Word(b0, b1));
  }

  lemma NoWrapAround(data: seq<Byte>)
    requires |data| <= 131074
    ensures WordSum(data) % UINT32 == WordSum(data)
  {
    WordSumBound(data);
  }

  lemma LoadedWord(host: Host, b0: Byte, b1: Byte)
    ensures 0 <= Word(b0, b1) <= 0xffff
    ensures LoadField(host, b0, b1) == Htons(host, Word(b0, b1))
    ensures Word(b0, b1) == 0 <==> b0 == 0 && b1 == 0
  {
  }

  /** A header whose checksum field is zeroed, summed and filled in has the ones' complement
      sum 0xffff, also where a checksum of 0 is sent as 0xffff. */
  lemma StoredChecksumIsValid(host: Host, header: seq<Byte>, at: nat)
    requires |header| <= 131074 && at % 2 == 0 && at + 1 < |header|
    ensures var filled := Stored(host, header, at, Checksum(host, Zeroed(header, at)));
            SumsToOnes(filled) && (filled[at] != 0 || filled[at + 1] != 0)
  {
    var zeroed := Zeroed(header, at);
    NoWrapAround(zeroed);
    var c := Complement(WordSum(zeroed));
    StoredBytes(host, c);
    SplitWord(c);
    LoadedWord(host, c / 256, c % 256);
    FillingIn(zeroed, at, c / 256, c % 256);
    assert WithField(zeroed, at, c / 256, c % 256) == Stored(host, header, at, Htons(host, c));
  }

  /** A header carries the checksum cksum computes for it exactly when it sums to 0xffff and the
      field is not 0. */
  lemma MatchesExactlyWhenValid(host: Host, header: seq<Byte>, at: nat)
    requires |header| <= 131074 && at % 2 == 0 && at + 1 < |header|
    ensures LoadField(host, header[at], header[at + 1]) == Checksum(host, Zeroed(header, at))
            <==> SumsToOnes(header) && (header[at] != 0 || header[at + 1] != 0)
  {
    var zeroed := Zeroed(header, at);
    NoWrapAround(zeroed);
    var b0, b1 := header[at], header[at + 1];
    var c := Complement(WordSum(zeroed));
    LoadedWord(host, b0, b1);
    HtonsInjective(host, Word(b0, b1), c);
    if Word(b0, b1) > 0 {
      FillingIn(zeroed, at, b0, b1);
      assert WithField(zeroed, at, b0, b1) == header;
    }
  }

  /** A header that sums to 0xffff and is refused: its checksum field is 0. */
  lemma ZeroFieldIsRefused(host: Host, header: seq<Byte>)
    requires header == [255, 255] + seq(18, i => 0)
    ensures SumsToOnes(header) && LoadField(host, header[10], header[11]) != Checksum(host, Zeroed(header, 10))
  {
    assert header[2..] == seq(18, i => 0);
    SumOfZeros(header[2..]);
    FoldIsOnesComplement(0xffff);
    MatchesExactlyWhenValid(host, header, 10);
  }

  lemma {:induction false} SumOfZeros(data: seq<Byte>)
    requires forall i :: 0 <= i < |data| ==> data[i] == 0
    ensures WordSum(data) == 0
  {
    if |data| >= 2 { SumOfZeros(data[2..]); }
  }

  lemma HtonsInjective(host: Host, x: Word16, y: Word16)
    ensures Htons(host, x) == Htons(host, y) <==> x == y
  {
    HtonsOfNonZero(host, x);
    HtonsOfNonZero(host, y);
  }

  // ---------------------------------------------------------------- the router's packets

  const ETH_HDR_SIZE: nat := 14
  const IP_HDR_SIZE: nat := 20
  const IP_LEN: nat := ETH_HDR_SIZE + 2
  const IP_TTL: nat := ETH_HDR_SIZE + 8
  const IP_SUM: nat := ETH_HDR_SIZE + 10

  function Header(packet: seq<Byte>): seq<Byte>
    requires |packet| >= 34
  {
    packet[14..34]
  }

  /** The total length field says at least a header, and the checksum matches. Octets are numbered
      from the start of the frame. */
  ghost predicate ValidIp(packet: seq<Byte>)
    requires |packet| >= 34
  {
    Word(packet[16], packet[17]) >= 20 && ChecksumFits(packet)
  }

  ghost predicate ChecksumFits(packet: seq<Byte>)
    requires |packet| >= 34
  {
    SumsToOnes(Header(packet)) && (packet[24] != 0 || packet[25] != 0)
  }

  /** The test validate_ip makes of the length: the field is compared as it was loaded, without
      ntohs. */
  predicate LongEnough(host: Host, hi: Byte, lo: Byte) { LoadField(host, hi, lo) >= IP_HDR_SIZE }

  /** Whether that test is right: on a little-endian machine it refuses lengths that are a small
      multiple of 256, and lets lengths of 1 to 19 pass. */
  predicate LengthReadRightly(host: Host, hi: Byte, lo: Byte) {
    host.LittleEndian? ==> !(lo == 0 && 0 < hi < 20) && !(hi == 0 && 0 < lo < 20)
  }

  lemma LengthTestExactly(host: Host, hi: Byte, lo: Byte)
    ensures LongEnough(host, hi, lo) == (Word(hi, lo) >= 20) <==> LengthReadRightly(host, hi, lo)
  {
    if hi > 0 && lo > 0 {
      assert Word(hi, lo) >= 256 && Word(lo, hi) >= 256;
    }
  }

  /** A datagram of 256 bytes is refused, and one whose length says 5 passes the test. */
  lemma ShortPassesAndLongIsRefused()
    ensures !LongEnough(LittleEndian, 1, 0) && Word(1, 0) == 256
    ensures LongEnough(LittleEndian, 0, 5) && Word(0, 5) == 5
  {
  }

  /** Zero the checksum field, sum the header, and store the result. */
  method RewriteChecksum(host: Host, packet: array<Byte>)
    requires packet.Length >= 34
    modifies packet
    ensures var sum := Checksum(host, Zeroed(Header(old(packet[..])), 10));
            packet[..] == Stored(host, old(packet[..]), IP_SUM, sum)
  {
    packet[IP_SUM], packet[IP_SUM + 1] := 0, 0;
    assert packet[ETH_HDR_SIZE..ETH_HDR_SIZE + IP_HDR_SIZE] == Zeroed(Header(old(packet[..])), 10);
    var sum := Cksum(host, packet, ETH_HDR_SIZE, IP_HDR_SIZE);
    packet[IP_SUM], packet[IP_SUM + 1] := StoreField(host, sum)[0], StoreField(host, sum)[1];
  }

  /** What a rewritten checksum says about the one that was there. */
  lemma RewrittenMatches(host: Host, packet: seq<Byte>)
    requires |packet| >= 34
    ensures var sum := Checksum(host, Zeroed(Header(packet), 10));
            var after := Stored(host, packet, IP_SUM, sum);
            && LoadField(host, after[IP_SUM], after[IP_SUM + 1]) == sum
            && (LoadField(host, packet[IP_SUM], packet[IP_SUM + 1]) == sum <==>
                ChecksumFits(packet))
            && (LoadField(host, packet[IP_SUM], packet[IP_SUM + 1]) == sum ==> after == packet)
  {
    var sum := Checksum(host, Zeroed(Header(packet), 10));
    MatchesExactlyWhenValid(host, Header(packet), 10);
    StoredBytes(host, sum);
    FieldsDiffer(host, packet[IP_SUM], packet[IP_SUM + 1]);
  }

  lemma FieldsDiffer(host: Host, b0: Byte, b1: Byte)
    ensures StoreField(host, LoadField(host, b0, b1)) == [b0, b1]
  {
  }

  /** validate_ip; a packet that is accepted is left as it was. A packet whose checksum fits is
      judged rightly exactly when its length is read rightly, any other packet always. */
  method ValidateIp(host: Host, packet: array<Byte>) returns (ok: bool)
    requires packet.Length >= 34
    modifies packet
    ensures ok <==> LongEnough(host, old(packet[16]), old(packet[17])) && ChecksumFits(old(packet[..]))
    ensures (ok <==> ValidIp(old(packet[..]))) <==>
      LengthReadRightly(host, old(packet[16]), old(packet[17])) || !ChecksumFits(old(packet[..]))
    ensures ok ==> packet[..] == old(packet[..])
    ensures forall i :: 0 <= i < packet.Length && i != 24 && i != 25 ==> packet[i] == old(packet[i])
  {
    LengthTestExactly(host, packet[IP_LEN], packet[IP_LEN + 1]);
    if LoadField(host, packet[IP_LEN], packet[IP_LEN + 1]) < IP_HDR_SIZE {
      return false;
    }
    var tmpSum := LoadField(host, packet[IP_SUM], packet[IP_SUM + 1]);
    ghost var before := packet[..];
    RewriteChecksum(host, packet);
    ok := tmpSum == LoadField(host, packet[IP_SUM], packet[IP_SUM + 1]);
    RewrittenMatches(host, before);
  }

  /** x-- on an unsigned byte */
  function OneLess(x: int): Byte { (x + 255) % 256 }

  /** The header update of forward_ip_packet: one hop less, and a fresh checksum. The packet is
      valid afterwards, whatever its checksum was, exactly when its length is large enough. */
  method DecrementTtl(host: Host, packet: array<Byte>) returns (expired: bool)
    requires packet.Length >= 34
    modifies packet
    ensures packet[22] == if old(packet[22]) == 0 then 255 else old(packet[22]) - 1
    ensures expired <==> old(packet[22]) == 1
    ensures ChecksumFits(packet[..])
    ensures ValidIp(packet[..]) <==> old(Word(packet[16], packet[17])) >= 20
    ensures forall i :: 0 <= i < packet.Length && i != 22 && i != 24 && i != 25 ==>
      packet[i] == old(packet[i])
  {
    packet[IP_TTL] := OneLess(packet[IP_TTL]);
    ghost var before := packet[..];
    RewriteChecksum(host, packet);
    StoredChecksumIsValid(host, Header(before), 10);
    ghost var sum := Checksum(host, Zeroed(Header(before), 10));
    assert Header(packet[..]) == Stored(host, Header(before), 10, sum);
    expired := packet[IP_TTL] == 0;
  }
}
