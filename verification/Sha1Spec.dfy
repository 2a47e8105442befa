/** The Secure Hash Standard as FIPS PUB 180-1 states it. */
module Sha1Spec {
  type Byte = bv8
  type Word = bv32

  datatype Digest = Digest(h0: Word, h1: Word, h2: Word, h3: Word, h4: Word)

  /** The initial value of section 7. */
  const INITIAL := Digest(0x67452301, 0xEFCDAB89, 0x98BADCFE, 0x10325476, 0xC3D2E1F0)

  const TWO_TO_64: nat := 0x1_0000_0000_0000_0000

  /** The functions f_t of section 5. */
  function F(t: nat, b: Word, c: Word, d: Word): Word {
    if t < 20 then (b & c) | (!b & d)
    else if t < 40 then b ^ c ^ d
    else if t < 60 then (b & c) | (b & d) | (c & d)
    else b ^ c ^ d
  }

  /** The constants K_t of section 6. */
  function K(t: nat): Word {
    if t < 20 then 0x5A827999
    else if t < 40 then 0x6ED9EBA1
    else if t < 60 then 0x8F1BBCDC
    else 0xCA62C1D6
  }

  /** The circular left shift S^n of section 3. */
  function S(n: nat, x: Word): Word
    requires n <= 32
  {
    x.RotateLeft(n)
  }

  /** Addition modulo 2^32, and the bitwise exclusive or of four words. */
  function Plus(x: Word, y: Word): Word { x + y }
  function Plus5(x: Word, y: Word, z: Word, u: Word, v: Word): Word { x + y + z + u + v }
  function Xor4(x: Word, y: Word, z: Word, u: Word): Word { x ^ y ^ z ^ u }

  function BigEndianWord(b0: Byte, b1: Byte, b2: Byte, b3: Byte): Word {
    ((b0 as Word) << 24) | ((b1 as Word) << 16) | ((b2 as Word) << 8) | (b3 as Word)
  }

  /** W_t of section 7, steps a and b. */
  ghost function W(block: seq<Byte>, t: nat): Word
    requires |block| == 64
  {
    if t < 16 then BigEndianWord(block[4 * t], block[4 * t + 1], block[4 * t + 2], block[4 * t + 3])
    else S(1, Xor4(W(block, t - 3), W(block, t - 8), W(block, t - 14), W(block, t - 16)))
  }

  /** One turn of step d, for given values of f_t and K_t. */
  ghost function Turn(s: Digest, f: Word, k: Word, w: Word): Digest {
    Digest(Plus5(S(5, s.h0), f, s.h4, w, k), s.h0, S(30, s.h1), s.h2, s.h3)
  }

  ghost function Step(s: Digest, t: nat, w: Word): Digest {
    Turn(s, F(t, s.h1, s.h2, s.h3), K(t), w)
  }

  ghost function Steps(s: Digest, block: seq<Byte>, t: nat): Digest
    requires |block| == 64
  {
    if t == 0 then s else Step(Steps(s, block, t - 1), t - 1, W(block, t - 1))
  }

  /** Step e. */
  ghost function AddUp(h: Digest, s: Digest): Digest {
    Digest(Plus(h.h0, s.h0), Plus(h.h1, s.h1), Plus(h.h2, s.h2), Plus(h.h3, s.h3), Plus(h.h4, s.h4))
  }

  /** Section 7 for one 512-bit block: steps a to e. */
  ghost function Compress(h: Digest, block: seq<Byte>): Digest
    requires |block| == 64
  {
    AddUp(h, Steps(h, block, 80))
  }

  ghost function CompressAll(h: Digest, blocks: seq<Byte>): Digest
    requires |blocks| % 64 == 0
  {
    if |blocks| == 0 then h
    else Compress(CompressAll(h, blocks[..|blocks| - 64]), blocks[|blocks| - 64..])
  }

  /** The octet that holds n. */
  function Octet(n: nat): Byte
    requires n < 256
  {
    if n == 0 then 0 else Octet(n - 1) + 1
  }

  /** The last count octets of n, high order first. */
  function BigEndian(n: nat, count: nat): (r: seq<Byte>)
    ensures |r| == count
  {
    if count == 0 then [] else BigEndian(n / 256, count - 1) + [Octet(n % 256)]
  }

  function Zeros(n: nat): (z: seq<Byte>)
    ensures |z| == n && forall i :: 0 <= i < n ==> z[i] == 0
  {
    seq(n, _ => 0 as Byte)
  }

  /** How many zero octets bring a message and its first padding octet to 448 bits modulo 512. */
  function ZeroCount(n: nat): nat {
    (119 - n % 64) % 64
  }

  /** Section 4: a one bit, the fewest zeros that fit, and the length in bits. */
  function Pad(m: seq<Byte>): (p: seq<Byte>)
    ensures |p| % 64 == 0
  {
    PadWith(m, BigEndian(8 * |m|, 8))
  }

  function PadWith(m: seq<Byte>, length: seq<Byte>): (p: seq<Byte>)
    ensures |length| == 8 ==> |p| % 64 == 0
  {
    PadLength(|m|);
    m + [0x80] + Zeros(ZeroCount(|m|)) + length
  }

  lemma PadLength(n: nat)
    ensures (n + 1 + ZeroCount(n) + 8) % 64 == 0
  {
    var q, r := n / 64, n % 64;
    ZerosFor(r);
    Multiple(if r <= 55 then q + 1 else q + 2);
  }

  lemma ZerosFor(r: nat)
    requires r < 64
    ensures (119 - r) % 64 == if r <= 55 then 55 - r else 119 - r
  {
  }

  lemma Multiple(k: nat)
    ensures (64 * k) % 64 == 0
  {
  }

  /** The message digest, defined for messages of less than 2^64 bits. */
  ghost function Sha1(m: seq<Byte>): Digest
    requires 8 * |m| < TWO_TO_64
  {
    CompressAll(INITIAL, Pad(m))
  }
}
