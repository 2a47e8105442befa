/** The streaming SHA-1 context of router/sha1.c. */
module Sha1Contexts {
  import opened Sequences
  import opened Sha1Spec

  const TWO_TO_32: nat := 0x1_0000_0000

  /** The SHA1CircularShift macro. */
  function CircularShift(bits: nat, word: Word): Word
    requires 0 < bits < 32
  {
    ((word << bits) & 0xFFFFFFFF) | (word >> (32 - bits))
  }

  lemma CompressAllAppend(h: Digest, blocks: seq<Byte>, block: seq<Byte>)
    requires |blocks| % 64 == 0 && |block| == 64
    ensures |blocks + block| % 64 == 0
    ensures CompressAll(h, blocks + block) == Compress(CompressAll(h, blocks), block)
  {
  }

  /** (word >> bits) & 0xFF on an unsigned word, with place == 2^bits. */
  function OctetAt(word: nat, place: nat): Byte
    requires place > 0
  {
    Octet(word / place % 256)
  }

  lemma BigEndianStep(n: nat, q: nat, r: nat, count: nat)
    requires r < 256 && n == 256 * q + r
    ensures BigEndian(n, count + 1) == BigEndian(q, count) + [Octet(r)]
  {
    Quotient(n, q, r);
  }

  lemma Quotient(n: nat, q: nat, r: nat)
    requires r < 256 && n == 256 * q + r
    ensures n / 256 == q && n % 256 == r
  {
  }

  lemma TwoOctets(n: nat, q: nat, r1: nat, r0: nat, count: nat)
    requires r0 < 256 && r1 < 256 && n == 256 * (256 * q + r1) + r0
    ensures BigEndian(n, count + 2) == BigEndian(q, count) + [Octet(r1), Octet(r0)]
  {
    BigEndianStep(n, 256 * q + r1, r0, count + 1);
    BigEndianStep(256 * q + r1, q, r1, count);
  }

  lemma FourOctets(n: nat, q: nat, r3: nat, r2: nat, r1: nat, r0: nat, count: nat)
    requires r0 < 256 && r1 < 256 && r2 < 256 && r3 < 256
    requires n == 256 * (256 * (256 * (256 * q + r3) + r2) + r1) + r0
    ensures BigEndian(n, count + 4) == BigEndian(q, count) + [Octet(r3), Octet(r2), Octet(r1), Octet(r0)]
  {
    TwoOctets(n, 256 * (256 * q + r3) + r2, r1, r0, count + 2);
    TwoOctets(256 * (256 * q + r3) + r2, q, r3, r2, count);
  }

  lemma FourParts(high: nat, word: nat)
    requires word < TWO_TO_32
    ensures high * TWO_TO_32 + word
         == 256 * (256 * (256 * (256 * high + word / 0x100_0000 % 0x100)
                          + word / 0x1_0000 % 0x100)
                   + word / 0x100 % 0x100)
            + word / 1 % 0x100
  {
    var w1, w2, w3 := word / 0x100, word / 0x1_0000, word / 0x100_0000;
    DivideByOctets(word);
    LowOctet(word);
    LowOctet(w1);
    LowOctet(w2);
  }

  lemma LowOctet(n: nat)
    ensures n == 256 * (n / 256) + n % 256
  {
  }

  lemma DivideByOctets(n: nat)
    ensures n / 0x1_0000 == n / 0x100 / 0x100 && n / 0x100_0000 == n / 0x1_0000 / 0x100 && n / 1 == n
    ensures n < TWO_TO_32 ==> n / 0x100_0000 % 0x100 == n / 0x100_0000
  {
  }

  /** The four octets as which a word is stored. */
  function Octets(word: nat): (r: seq<Byte>)
    ensures |r| == 4
  {
    [OctetAt(word, 0x100_0000), OctetAt(word, 0x1_0000), OctetAt(word, 0x100), OctetAt(word, 1)]
  }

  lemma WordOctets(word: nat, high: nat, count: nat)
    requires word < TWO_TO_32
    ensures BigEndian(high * TWO_TO_32 + word, count + 4) == BigEndian(high, count) + Octets(word)
  {
    FourParts(high, word);
    FourOctets(high * TWO_TO_32 + word, high, word / 0x100_0000 % 0x100, word / 0x1_0000 % 0x100, word / 0x100 % 0x100,
               word / 1 % 0x100, count);
  }

  /** The 64-bit length is the two length words one after the other. */
  lemma SplitLength(high: nat, low: nat)
    requires high < TWO_TO_32 && low < TWO_TO_32
    ensures BigEndian(high * TWO_TO_32 + low, 8) == Octets(high) + Octets(low)
  {
    WordOctets(low, high, 4);
    WordOctets(high, 0, 0);
  }

  lemma OneMoreOctet(m: seq<Byte>, octets: seq<Byte>, n: nat)
    requires n < |octets|
    ensures m + octets[..n + 1] == m + octets[..n] + [octets[n]]
  {
  }

  /** A block with one word stored at 56 and another behind it. */
  lemma TwoWords(block: seq<Byte>, high: seq<Byte>, low: seq<Byte>)
    requires |block| == 64 && |high| == |low| == 4
    ensures (block[..56] + high + block[60..])[..60] == block[..56] + high
    ensures block[..56] + high + low == block[..56] + (high + low)
  {
  }

  /** The padding is a mark, zeros and the length; here the mark and the length fit behind
      the buffered octets. */
  lemma PadInOneBlock(m: seq<Byte>, i: nat, start: seq<Byte>, length: seq<Byte>)
    requires i == |m| % 64 && i <= 55
    requires start == m[|m| - i..] + [0x80] + Zeros(55 - i)
    ensures m[..|m| - i] + (start + length) == PadWith(m, length)
  {
  }

  /** The same when the zeros run over into a second block. */
  lemma PadInTwoBlocks(m: seq<Byte>, i: nat, first: seq<Byte>, start: seq<Byte>, length: seq<Byte>)
    requires i == |m| % 64 && 55 < i
    requires first == m[|m| - i..] + [0x80] + Zeros(63 - i) && start == Zeros(56)
    ensures (m[..|m| - i] + first) + (start + length) == PadWith(m, length)
  {
  }

  // The word expressions of the code, one method each, equal to what the standard names.

  method LoadWord(b0: Byte, b1: Byte, b2: Byte, b3: Byte) returns (w: Word)
    ensures w == BigEndianWord(b0, b1, b2, b3)
  {
    w := (b0 as Word) << 24;
    w := w | ((b1 as Word) << 16);
    w := w | ((b2 as Word) << 8);
    w := w | (b3 as Word);
  }

  method ExpandWord(x: Word, y: Word, z: Word, u: Word) returns (w: Word)
    ensures w == S(1, Xor4(x, y, z, u))
  {
    w := CircularShift(1, x ^ y ^ z ^ u);
  }

  method RotateBy30(word: Word) returns (w: Word)
    ensures w == S(30, word)
  {
    w := CircularShift(30, word);
  }

  method RotateBy5(word: Word) returns (w: Word)
    ensures w == S(5, word)
  {
    w := CircularShift(5, word);
  }

  method AddFiveWords(x: Word, y: Word, z: Word, u: Word, v: Word) returns (w: Word)
    ensures w == Plus5(x, y, z, u, v)
  {
    w := (x + y + z + u + v) & 0xFFFFFFFF;
  }

  method AddWords(x: Word, y: Word) returns (w: Word)
    ensures w == Plus(x, y)
  {
    w := (x + y) & 0xFFFFFFFF;
  }

  method F1(b: Word, c: Word, d: Word) returns (f: Word)
    ensures forall t {:trigger F(t, b, c, d)} :: 0 <= t < 20 ==> f == F(t, b, c, d)
  {
    f := (b & c) | (!b & d);
  }

  method F2(b: Word, c: Word, d: Word) returns (f: Word)
    ensures forall t {:trigger F(t, b, c, d)} :: 20 <= t < 40 || 60 <= t < 80 ==> f == F(t, b, c, d)
  {
    f := b ^ c ^ d;
  }

  method F3(b: Word, c: Word, d: Word) returns (f: Word)
    ensures forall t {:trigger F(t, b, c, d)} :: 40 <= t < 60 ==> f == F(t, b, c, d)
  {
    f := (b & c) | (b & d) | (c & d);
  }

  function DigestOf(h: seq<Word>): Digest
    requires |h| == 5
  {
    Digest(h[0], h[1], h[2], h[3], h[4])
  }

  /** The split length counts the bits of m. */
  ghost predicate Counts(m: seq<Byte>, high: nat, low: nat) {
    8 * |m| < TWO_TO_64 && low < TWO_TO_32 && high < TWO_TO_32 && high * TWO_TO_32 + low == 8 * |m|
  }

  lemma LengthOctets(m: seq<Byte>, high: nat, low: nat)
    requires Counts(m, high, low)
    ensures BigEndian(8 * |m|, 8) == Octets(high) + Octets(low)
  {
    LengthInWords(8 * |m|, high, low);
  }

  lemma WholeOctets(n: nat, high: nat, low: nat)
    requires high * TWO_TO_32 + low == 8 * n
    ensures low % 8 == 0
  {
    assert low == 8 * (n - high * 0x2000_0000);
  }

  lemma LengthInWords(n: nat, high: nat, low: nat)
    requires low < TWO_TO_32 && high < TWO_TO_32 && n == high * TWO_TO_32 + low
    ensures BigEndian(n, 8) == Octets(high) + Octets(low)
  {
    SplitLength(high, low);
  }

  /** Whole blocks of m are in the digest h, the rest is buffered. */
  ghost predicate Covers(m: seq<Byte>, h: Digest, buffered: seq<Byte>) {
    && |buffered| == |m| % 64
    && m == m[..|m| - |buffered|] + buffered
    && h == CompressAll(INITIAL, m[..|m| - |buffered|])
  }

  /** Where the whole blocks end after one more octet. */
  lemma BlocksAfterOneMore(m: seq<Byte>, buffered: seq<Byte>, octet: Byte)
    requires |buffered| == |m| % 64 && m == m[..|m| - |buffered|] + buffered
    ensures var m' := m + [octet];
      && (|buffered| < 63 ==> |m'| % 64 == |buffered| + 1 && m'[..|m'| - (|buffered| + 1)] == m[..|m| - |buffered|])
      && (|buffered| == 63 ==> |m'| % 64 == 0)
      && m' == m[..|m| - |buffered|] + (buffered + [octet])
  {
  }

  /** One more octet, when the block has room for another after it. */
  lemma CoversInBuffer(m: seq<Byte>, h: Digest, buffered: seq<Byte>, octet: Byte)
    requires Covers(m, h, buffered) && |buffered| < 63
    ensures Covers(m + [octet], h, buffered + [octet])
  {
    BlocksAfterOneMore(m, buffered, octet);
  }

  /** One more octet, when it fills the block. */
  lemma CoversInBlock(m: seq<Byte>, h: Digest, buffered: seq<Byte>, octet: Byte)
    requires Covers(m, h, buffered) && |buffered| == 63
    ensures Covers(m + [octet], Compress(h, buffered + [octet]), [])
  {
    BlocksAfterOneMore(m, buffered, octet);
    WholeAndNothing(m + [octet]);
    NextDigest(m[..|m| - |buffered|], h, buffered + [octet], m + [octet]);
  }

  lemma WholeAndNothing(m: seq<Byte>)
    ensures m[..|m|] == m && m[..|m|] + [] == m
  {
  }

  lemma NextDigest(head: seq<Byte>, h: Digest, block: seq<Byte>, all: seq<Byte>)
    requires |head| % 64 == 0 && |block| == 64 && all == head + block && h == CompressAll(INITIAL, head)
    ensures |all| % 64 == 0 && CompressAll(INITIAL, all) == Compress(h, block)
  {
    CompressAllAppend(INITIAL, head, block);
  }

  /** The part of the message that is in the digest; the rest is in the buffer. */
  lemma WholeBlocks(m: seq<Byte>, h: Digest, buffered: seq<Byte>) returns (head: seq<Byte>)
    requires Covers(m, h, buffered)
    ensures head == m[..|m| - |buffered|] && m[|m| - |buffered|..] == buffered
    ensures |head| % 64 == 0 && h == CompressAll(INITIAL, head)
  {
    head := m[..|m| - |buffered|];
    SplitOff(m, buffered);
  }

  lemma SplitOff(m: seq<Byte>, buffered: seq<Byte>)
    requires |buffered| == |m| % 64 && m == m[..|m| - |buffered|] + buffered
    ensures m[|m| - |buffered|..] == buffered && (|m| - |buffered|) % 64 == 0
  {
  }

  class Sha1Context {
    const digest: array<Word>       // Message_Digest
    const block: array<Byte>        // Message_Block
    var index: nat                  // Message_Block_Index
    var lengthLow: nat              // 32-bit unsigned
    var lengthHigh: nat             // 32-bit unsigned
    var computed: bool
    var corrupted: bool
    ghost var message: seq<Byte>    // all octets taken in since Reset

    ghost predicate Shape()
      reads this
    {
      digest.Length == 5 && block.Length == 64
    }

    /** Octets are being taken in. */
    ghost predicate Absorbing()
      reads this, digest, block
    {
      && Shape() && !computed && !corrupted && index < 64
      && Counts(message, lengthHigh, lengthLow)
      && Covers(message, DigestOf(digest[..]), block[..index])
    }

    /** The digest has been computed and is the digest of everything taken in. */
    ghost predicate Finished()
      reads this, digest
    {
      && Shape() && computed && !corrupted && 8 * |message| < TWO_TO_64
      && DigestOf(digest[..]) == Sha1(message)
    }

    constructor ()
      ensures Shape() && fresh(digest) && fresh(block)
    {
      digest := new Word[5];
      block := new Byte[64];
    }

    /** SHA1Reset */
    method Reset()
      requires Shape()
      modifies this, digest
      ensures Absorbing() && message == []
    {
      lengthLow, lengthHigh, index := 0, 0, 0;
      digest[0] := 0x67452301;
      digest[1] := 0xEFCDAB89;
      digest[2] := 0x98BADCFE;
      digest[3] := 0x10325476;
      digest[4] := 0xC3D2E1F0;
      computed, corrupted := false, false;
      message := [];
    }

    /** SHA1Input. An octet count of zero is ignored; input after the digest was computed,
        or past 2^64 - 1 bits, corrupts the context. */
    method Input(octets: seq<Byte>)
      requires Absorbing() || (Shape() && (computed || corrupted))
      requires |octets| < TWO_TO_32
      modifies this, digest, block
      ensures Shape() && computed == old(computed)
      ensures octets == [] ==> corrupted == old(corrupted) && message == old(message) && digest[..] == old(digest[..])
      ensures old(Absorbing()) ==>
        if 8 * (|old(message)| + |octets|) < TWO_TO_64
        then Absorbing() && message == old(message) + octets
        else corrupted
      ensures (old(computed) || old(corrupted)) && octets != [] ==> corrupted
    {
      if |octets| == 0 { return; }
      if computed || corrupted {
        corrupted := true;
        return;
      }
      InputOctets(octets);
    }

    /** The loop of SHA1Input. */
    method InputOctets(octets: seq<Byte>)
      requires Absorbing()
      modifies this, digest, block
      ensures !computed && Took(old(message) + octets)
    {
      var n := 0;
      ghost var m := message;
      assert m + octets[..0] == m;
      while n < |octets| && !corrupted
        invariant 0 <= n <= |octets|
        invariant !computed && Took(m + octets[..n])
        decreases |octets| - n
      {
        OneMoreOctet(m, octets, n);
        InputOctet(octets[n]);
        n := n + 1;
      }
      assert octets[..|octets|] == octets;
    }

    /** These octets have been taken in, or were too many. */
    ghost predicate Took(m: seq<Byte>)
      reads this, digest, block
    {
      Shape() && if 8 * |m| < TWO_TO_64 then Absorbing() && message == m else corrupted
    }

    /** The body of the loop in SHA1Input. */
    method InputOctet(octet: Byte)
      requires Absorbing()
      modifies this, digest, block
      ensures !computed && Took(old(message) + [octet])
    {
      StoreOctet(octet);
      CountFor(old(message), octet);
      BufferedOne(old(message), old(block[..index]), octet);
    }

    method CountFor(ghost m: seq<Byte>, ghost octet: Byte)
      requires Counts(m, lengthHigh, lengthLow) && !corrupted
      modifies this`lengthLow, this`lengthHigh, this`corrupted
      ensures IsCounted(m + [octet])
    {
      WholeOctets(|m|, lengthHigh, lengthLow);
      CountOctet();
    }

    /** The length words are those of the message, or were run over. */
    ghost predicate IsCounted(m: seq<Byte>)
      reads this
    {
      if 8 * |m| < TWO_TO_64 then !corrupted && Counts(m, lengthHigh, lengthLow) else corrupted
    }

    /** With the octet stored and counted. */
    method BufferedOne(ghost m: seq<Byte>, ghost buffered: seq<Byte>, ghost octet: Byte)
      requires Shape() && !computed && index <= 64 && block[..index] == buffered + [octet]
      requires Covers(m, DigestOf(digest[..]), buffered)
      requires IsCounted(m + [octet])
      modifies this`index, this`message, digest
      ensures !computed && Took(m + [octet])
    {
      ghost var h := DigestOf(digest[..]);
      message := m + [octet];
      if |buffered| < 63 {
        CoversInBuffer(m, h, buffered, octet);
      } else {
        CoversInBlock(m, h, buffered, octet);
      }
      ProcessIfFull(buffered + [octet]);
    }

    /** The last statement of that body. */
    method ProcessIfFull(ghost buffered: seq<Byte>)
      requires Shape() && index <= 64 && block[..index] == buffered
      modifies this`index, digest
      ensures |buffered| == 64 ==> index == 0 && DigestOf(digest[..]) == Compress(old(DigestOf(digest[..])), buffered)
      ensures |buffered| != 64 ==> index == |buffered| && digest[..] == old(digest[..])
    {
      if index == 64 {
        assert block[..] == block[..index];
        ProcessMessageBlock();
      }
    }

    method StoreOctet(octet: Byte)
      requires Shape() && index < 64
      modifies this`index, block
      ensures index == old(index) + 1 && block[..index] == old(block[..index]) + [octet]
    {
      block[index] := octet;
      index := index + 1;
    }

    /** The length is kept in two 32-bit words; running over both corrupts the context. */
    method CountOctet()
      requires lengthLow < TWO_TO_32 && lengthHigh < TWO_TO_32 && lengthLow % 8 == 0
      modifies this`lengthLow, this`lengthHigh, this`corrupted
      ensures lengthLow < TWO_TO_32 && lengthHigh < TWO_TO_32
      ensures var bits := old(lengthHigh * TWO_TO_32 + lengthLow) + 8;
        if bits < TWO_TO_64 then lengthHigh * TWO_TO_32 + lengthLow == bits && corrupted == old(corrupted)
        else corrupted
    {
      lengthLow := (lengthLow + 8) % TWO_TO_32;
      if lengthLow == 0 {
        lengthHigh := (lengthHigh + 1) % TWO_TO_32;
        if lengthHigh == 0 {
          corrupted := true;
        }
      }
    }

    /** SHA1Result: 1 and the digest of everything taken in, or 0 for a corrupted context.
        A second call changes nothing. */
    method Result() returns (ok: bool)
      requires Absorbing() || Finished() || (Shape() && corrupted)
      modifies this`index, this`computed, digest, block
      ensures ok == !old(corrupted) && corrupted == old(corrupted)
      ensures ok ==> Finished()
      ensures old(computed) || !ok ==> digest[..] == old(digest[..]) && block[..] == old(block[..])
    {
      if corrupted { return false; }
      if !computed {
        PadMessage();
        computed := true;
      }
      return true;
    }

    /** SHA1PadMessage */
    method PadMessage()
      requires Absorbing()
      modifies this`index, digest, block
      ensures DigestOf(digest[..]) == Sha1(message)
    {
      if index > 55 {
        PadOver();
      } else {
        PadWithin();
      }
    }

    /** Its branch for a block without room for the length. */
    method PadOver()
      requires Absorbing() && index > 55
      modifies this`index, digest, block
      ensures DigestOf(digest[..]) == Sha1(message)
    {
      ghost var m, i := message, index;
      ghost var head := WholeBlocks(m, DigestOf(digest[..]), block[..index]);
      ghost var first := SpillBlock(head, block[..index]);
      LengthOctets(m, lengthHigh, lengthLow);
      PadInTwoBlocks(m, i, first, block[..56], BigEndian(8 * |m|, 8));
      CloseBlock(head + first, m, BigEndian(8 * |m|, 8));
    }

    /** Its branch for a block with room for the length. */
    method PadWithin()
      requires Absorbing() && index <= 55
      modifies this`index, digest, block
      ensures DigestOf(digest[..]) == Sha1(message)
    {
      ghost var m, i := message, index;
      ghost var head := WholeBlocks(m, DigestOf(digest[..]), block[..index]);
      MarkBlock(block[..index]);
      LengthOctets(m, lengthHigh, lengthLow);
      PadInOneBlock(m, i, block[..56], BigEndian(8 * |m|, 8));
      CloseBlock(head, m, BigEndian(8 * |m|, 8));
    }

    /** The length is stored behind the first 56 octets and the last block is processed. */
    method CloseBlock(ghost head: seq<Byte>, ghost m: seq<Byte>, ghost length: seq<Byte>)
      requires Shape() && 8 * |m| < TWO_TO_64 && length == Octets(lengthHigh) + Octets(lengthLow)
      requires |head| % 64 == 0 && DigestOf(digest[..]) == CompressAll(INITIAL, head)
      requires head + (block[..56] + length) == Pad(m)
      modifies this`index, digest, block
      ensures DigestOf(digest[..]) == Sha1(m)
    {
      StoreLength();
      CompressLast(head, old(block[..56]) + length, m);
    }

    method CompressLast(ghost head: seq<Byte>, ghost last: seq<Byte>, ghost m: seq<Byte>)
      requires Shape() && block[..] == last && 8 * |m| < TWO_TO_64
      requires |head| % 64 == 0 && DigestOf(digest[..]) == CompressAll(INITIAL, head)
      requires head + last == Pad(m)
      modifies this`index, digest
      ensures DigestOf(digest[..]) == Sha1(m)
    {
      CompressAllAppend(INITIAL, head, last);
      ProcessMessageBlock();
    }

    /** The branch of SHA1PadMessage in which the mark and the length fit. */
    method MarkBlock(ghost tail: seq<Byte>)
      requires Shape() && index <= 55 && tail == block[..index]
      modifies this`index, block
      ensures block[..56] == tail + [0x80] + Zeros(55 - old(index))
    {
      StoreOctet(0x80);
      ZeroFill(56);
    }

    /** The branch of SHA1PadMessage in which the mark does not leave room for the length. */
    method SpillBlock(ghost head: seq<Byte>, ghost tail: seq<Byte>) returns (ghost first: seq<Byte>)
      requires Shape() && 55 < index < 64 && tail == block[..index]
      requires |head| % 64 == 0 && DigestOf(digest[..]) == CompressAll(INITIAL, head)
      modifies this`index, digest, block
      ensures first == tail + [0x80] + Zeros(63 - old(index)) && |first| == 64
      ensures (|head + first|) % 64 == 0 && DigestOf(digest[..]) == CompressAll(INITIAL, head + first)
      ensures index == 56 && block[..56] == Zeros(56)
    {
      StoreOctet(0x80);
      ZeroFill(64);
      first := block[..];
      assert first == block[..64];
      CompressAllAppend(INITIAL, head, first);
      ProcessMessageBlock();
      ZeroFill(56);
    }

    /** The message length as the last eight octets of the block. */
    method StoreLength()
      requires Shape()
      modifies block
      ensures block[..] == old(block[..56]) + (Octets(lengthHigh) + Octets(lengthLow))
    {
      TwoWords(block[..], Octets(lengthHigh), Octets(lengthLow));
      StoreWord(56, lengthHigh);
      StoreWord(60, lengthLow);
    }

    method StoreWord(at: nat, word: nat)
      requires Shape() && at + 4 <= 64
      modifies block
      ensures block[..] == old(block[..])[..at] + Octets(word) + old(block[..])[at + 4..]
    {
      block[at] := OctetAt(word, 0x100_0000);
      block[at + 1] := OctetAt(word, 0x1_0000);
      block[at + 2] := OctetAt(word, 0x100);
      block[at + 3] := OctetAt(word, 1);
    }

    /** The zero-filling loops of SHA1PadMessage. */
    method ZeroFill(limit: nat)
      requires Shape() && index <= limit <= 64
      modifies this`index, block
      ensures index == limit
      ensures block[..limit] == old(block[..index]) + Zeros(limit - old(index))
    {
      while index < limit
        invariant old(index) <= index <= limit
        invariant block[..index] == old(block[..index]) + Zeros(index - old(index))
      {
        block[index] := 0;
        index := index + 1;
      }
    }

    /** SHA1ProcessMessageBlock */
    method ProcessMessageBlock()
      requires Shape()
      modifies this`index, digest
      ensures index == 0
      ensures DigestOf(digest[..]) == Compress(old(DigestOf(digest[..])), block[..])
    {
      ghost var m := block[..];
      var h0, h1, h2, h3, h4 := digest[0], digest[1], digest[2], digest[3], digest[4];
      var w := Schedule();
      var a, b, c, d, e := Rounds(w, h0, h1, h2, h3, h4, m);
      a, b, c, d, e := FinalSums(h0, h1, h2, h3, h4, a, b, c, d, e);
      digest[0], digest[1], digest[2], digest[3], digest[4] := a, b, c, d, e;
      index := 0;
    }

    /** The word sequence W. */
    method Schedule() returns (w: array<Word>)
      requires Shape()
      ensures fresh(w) && w.Length == 80
      ensures forall t :: 0 <= t < 80 ==> w[t] == W(block[..], t)
    {
      w := new Word[80];
      LoadWords(w);
      ExpandWords(w, block[..]);
    }

    /** Its first loop. */
    method LoadWords(w: array<Word>)
      requires Shape() && w.Length == 80
      modifies w
      ensures forall t :: 0 <= t < 16 ==> w[t] == W(block[..], t)
    {
      ghost var m := block[..];
      for t := 0 to 16
        invariant forall s :: 0 <= s < t ==> w[s] == W(m, s)
      {
        w[t] := LoadWord(block[t * 4], block[t * 4 + 1], block[t * 4 + 2], block[t * 4 + 3]);
      }
    }
  }

  /** Its second loop. */
  method ExpandWords(w: array<Word>, ghost m: seq<Byte>)
    requires |m| == 64 && w.Length == 80 && forall t :: 0 <= t < 16 ==> w[t] == W(m, t)
    modifies w
    ensures forall t :: 0 <= t < 80 ==> w[t] == W(m, t)
  {
    for t := 16 to 80
      invariant forall s :: 0 <= s < t ==> w[s] == W(m, s)
    {
      NextWord(m, t);
      w[t] := ExpandWord(w[t - 3], w[t - 8], w[t - 14], w[t - 16]);
    }
  }

  lemma NextWord(m: seq<Byte>, t: nat)
    requires |m| == 64 && t >= 16
    ensures W(m, t) == S(1, Xor4(W(m, t - 3), W(m, t - 8), W(m, t - 14), W(m, t - 16)))
  {
  }

  /** The four round loops over the word buffers A to E. */
  method Rounds(w: array<Word>, a0: Word, b0: Word, c0: Word, d0: Word, e0: Word, ghost m: seq<Byte>)
    returns (a: Word, b: Word, c: Word, d: Word, e: Word)
    requires |m| == 64 && w.Length == 80 && forall t :: 0 <= t < 80 ==> w[t] == W(m, t)
    ensures Digest(a, b, c, d, e) == Steps(Digest(a0, b0, c0, d0, e0), m, 80)
  {
    ghost var h := Digest(a0, b0, c0, d0, e0);
    a, b, c, d, e := a0, b0, c0, d0, e0;
    for t := 0 to 20
      invariant Digest(a, b, c, d, e) == Steps(h, m, t)
    {
      var f := F1(b, c, d);
      a, b, c, d, e := Round(a, b, c, d, e, f, w[t], 0x5A827999);
    }
    for t := 20 to 40
      invariant Digest(a, b, c, d, e) == Steps(h, m, t)
    {
      var f := F2(b, c, d);
      a, b, c, d, e := Round(a, b, c, d, e, f, w[t], 0x6ED9EBA1);
    }
    for t := 40 to 60
      invariant Digest(a, b, c, d, e) == Steps(h, m, t)
    {
      var f := F3(b, c, d);
      a, b, c, d, e := Round(a, b, c, d, e, f, w[t], 0x8F1BBCDC);
    }
    for t := 60 to 80
      invariant Digest(a, b, c, d, e) == Steps(h, m, t)
    {
      var f := F2(b, c, d);
      a, b, c, d, e := Round(a, b, c, d, e, f, w[t], 0xCA62C1D6);
    }
  }

  /** The five additions into Message_Digest. */
  method FinalSums(h0: Word, h1: Word, h2: Word, h3: Word, h4: Word, a: Word, b: Word, c: Word, d: Word, e: Word)
    returns (a': Word, b': Word, c': Word, d': Word, e': Word)
    ensures Digest(a', b', c', d', e') == AddUp(Digest(h0, h1, h2, h3, h4), Digest(a, b, c, d, e))
  {
    a' := AddWords(h0, a);
    b' := AddWords(h1, b);
    c' := AddWords(h2, c);
    d' := AddWords(h3, d);
    e' := AddWords(h4, e);
  }

  /** The body that the four round loops share. */
  method Round(a: Word, b: Word, c: Word, d: Word, e: Word, f: Word, w: Word, k: Word)
    returns (a': Word, b': Word, c': Word, d': Word, e': Word)
    ensures Digest(a', b', c', d', e') == Turn(Digest(a, b, c, d, e), f, k, w)
  {
    var a5 := RotateBy5(a);
    var temp := AddFiveWords(a5, f, e, w, k);
    e' := d;
    d' := c;
    c' := RotateBy30(b);
    b' := a;
    a' := temp;
  }

  lemma {:induction false} FlattenLength(chunks: seq<seq<Byte>>, n: nat)
    requires n <= |chunks|
    ensures |Flatten(chunks[..n])| <= |Flatten(chunks)|
  {
    if n > 0 {
      FlattenLength(chunks[1..], n - 1);
      assert chunks[..n][0] == chunks[0] && chunks[..n][1..] == chunks[1..][..n - 1];
    }
  }

  /** Any way of cutting a message of less than 2^64 bits into SHA1Input calls leaves, after
      SHA1Result, the digest of the whole message; a second SHA1Result leaves it there. */
  method HashInPieces(chunks: seq<seq<Byte>>) returns (context: Sha1Context)
    requires forall c :: c in chunks ==> |c| < TWO_TO_32
    requires 8 * |Flatten(chunks)| < TWO_TO_64
    ensures context.Shape() && context.computed && !context.corrupted
    ensures DigestOf(context.digest[..]) == Sha1(Flatten(chunks))
  {
    context := new Sha1Context();
    context.Reset();
    for n := 0 to |chunks|
      invariant context.Absorbing() && context.message == Flatten(chunks[..n])
      invariant fresh(context) && fresh(context.digest) && fresh(context.block)
    {
      assert chunks[..n + 1] == chunks[..n] + [chunks[n]];
      FlattenAppend(chunks[..n], [chunks[n]]);
      FlattenOne(chunks[n]);
      FlattenLength(chunks, n + 1);
      context.Input(chunks[n]);
    }
    assert chunks[..|chunks|] == chunks;
    var ok := context.Result();
    ok := context.Result();
  }
}
