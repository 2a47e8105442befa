/** struct.pack and struct.unpack_from in network byte order: a layout is a list of field
    widths in bytes. */
module Bytes {
  type Byte = n: int | 0 <= n < 256

  function Power256(k: nat): (r: nat)
    ensures r > 0
  {
    if k == 0 then 1 else 256 * Power256(k - 1)
  }

  /** The k bytes of x, high order first. */
  function BigEndian(x: nat, k: nat): (r: seq<Byte>)
    ensures |r| == k
  {
    if k == 0 then [] else BigEndian(x / 256, k - 1) + [x % 256]
  }

  function Number(b: seq<Byte>): nat {
    if b == [] then 0 else 256 * Number(b[..|b| - 1]) + b[|b| - 1]
  }

  lemma {:induction false} NumberOfBigEndian(x: nat, k: nat)
    requires x < Power256(k)
    ensures Number(BigEndian(x, k)) == x
  {
    if k > 0 {
      NumberOfBigEndian(x / 256, k - 1);
      assert BigEndian(x, k)[..k - 1] == BigEndian(x / 256, k - 1);
    }
  }

  type Layout = seq<nat>

  function Size(l: Layout): nat {
    if l == [] then 0 else l[0] + Size(l[1..])
  }

  lemma {:induction false} SizeOfSum(a: Layout, b: Layout)
    ensures Size(a + b) == Size(a) + Size(b)
  {
    if a == [] {
      assert a + b == b;
    } else {
      SizeOfSum(a[1..], b);
      assert (a + b)[1..] == a[1..] + b;
    }
  }

  predicate Fits(l: Layout, values: seq<nat>) {
    |l| == |values| && forall i :: 0 <= i < |l| ==> values[i] < Power256(l[i])
  }

  lemma FitsAppend(a: Layout, x: seq<nat>, b: Layout, y: seq<nat>)
    requires Fits(a, x) && Fits(b, y)
    ensures Fits(a + b, x + y)
  {
  }

  function Pack(l: Layout, values: seq<nat>): (r: seq<Byte>)
    requires |l| == |values|
    ensures |r| == Size(l)
  {
    if l == [] then [] else BigEndian(values[0], l[0]) + Pack(l[1..], values[1..])
  }

  function Unpack(l: Layout, b: seq<Byte>): (r: seq<nat>)
    requires Size(l) <= |b|
    ensures |r| == |l|
  {
    if l == [] then [] else [Number(b[..l[0]])] + Unpack(l[1..], b[l[0]..])
  }

  /** Unpacking the front of a packed buffer gives the values back. */
  lemma {:induction false} UnpackPack(l: Layout, values: seq<nat>, rest: seq<Byte>)
    requires Fits(l, values)
    ensures Unpack(l, Pack(l, values) + rest) == values
  {
    if l != [] {
      var x, head, tail := values[0], BigEndian(values[0], l[0]), Pack(l[1..], values[1..]);
      Front(head, tail, rest);
      NumberOfBigEndian(x, l[0]);
      UnpackPack(l[1..], values[1..], rest);
      assert Unpack(l, head + tail + rest) == [x] + values[1..];
    }
  }

  // ---------------------------------------------------------------- where the fields are

  /** The high octet comes first. */
  lemma HighOctetFirst(b: seq<Byte>)
    ensures |b| == 1 ==> Number(b) == b[0]
    ensures |b| == 2 ==> Number(b) == Join(b[0], b[1])
    ensures |b| == 4 ==> Number(b) == 0x1_0000 * Join(b[0], b[1]) + Join(b[2], b[3])
    ensures |b| == 6 ==>
      Number(b) == 0x1_0000_0000 * Join(b[0], b[1]) + 0x1_0000 * Join(b[2], b[3]) + Join(b[4], b[5])
  {
    if |b| > 0 { OneMoreOctet(b, |b| - 1); }
    if |b| > 1 { OneMoreOctet(b, |b| - 2); }
    if |b| > 2 { OneMoreOctet(b, |b| - 3); }
    if |b| > 3 { OneMoreOctet(b, |b| - 4); }
    if |b| > 4 { OneMoreOctet(b, |b| - 5); }
    if |b| > 5 { OneMoreOctet(b, |b| - 6); }
  }

  function Join(high: int, low: int): int { 256 * high + low }

  lemma OneMoreOctet(b: seq<Byte>, k: nat)
    requires k < |b|
    ensures Number(b[..k + 1]) == 256 * Number(b[..k]) + b[k] && Number(b[..0]) == 0 && b[..|b|] == b
  {
    assert b[..k + 1][..k] == b[..k];
  }

  /** Where field number k of a layout begins. */
  function Offset(l: Layout, k: nat): nat
    requires k <= |l|
  {
    if k == 0 then 0 else Offset(l, k - 1) + l[k - 1]
  }

  lemma {:induction false} OffsetInRest(l: Layout, k: nat)
    requires 0 < k <= |l|
    ensures Offset(l, k) == l[0] + Offset(l[1..], k - 1)
  {
    if k > 1 { OffsetInRest(l, k - 1); }
  }

  lemma {:induction false} OffsetsGrow(l: Layout, k: nat)
    requires k <= |l|
    ensures Offset(l, k) <= Size(l)
  {
    if k > 0 {
      OffsetInRest(l, k);
      OffsetsGrow(l[1..], k - 1);
    }
  }

  /** The fields begin where these running sums say. */
  ghost predicate BeginAt(l: Layout, at: seq<nat>) {
    |at| == |l| > 0 && at[0] == 0 && forall i :: 1 <= i < |l| ==> at[i] == at[i - 1] + l[i - 1]
  }

  lemma {:induction false} OffsetIs(l: Layout, at: seq<nat>, k: nat)
    requires BeginAt(l, at) && k < |l|
    ensures Offset(l, k) == at[k]
  {
    if k > 0 { OffsetIs(l, at, k - 1); }
  }

  lemma UnpackOfRest(l: Layout, b: seq<Byte>, k: nat)
    requires Size(l) <= |b| && 0 < k < |l|
    ensures Unpack(l, b)[k] == Unpack(l[1..], b[l[0]..])[k - 1]
  {
  }

  /** A value is read from the octets where its field begins. */
  lemma {:induction false} UnpackedAt(l: Layout, b: seq<Byte>, k: nat, from: nat, octets: seq<Byte>)
    requires Size(l) <= |b| && k < |l| && from == Offset(l, k) && from + l[k] <= |b|
    requires octets == b[from..from + l[k]]
    ensures Unpack(l, b)[k] == Number(octets)
  {
    if k == 0 {
      assert b[0..l[0]] == b[..l[0]];
    } else {
      UnpackOfRest(l, b, k);
      OffsetInRest(l, k);
      SliceOfRest(b, l[0], from - l[0], l[k]);
      UnpackedAt(l[1..], b[l[0]..], k - 1, from - l[0], octets);
    }
  }

  lemma SliceOfRest(b: seq<Byte>, x: nat, y: nat, w: nat)
    requires x + y + w <= |b|
    ensures b[x..][y..y + w] == b[x + y..x + y + w]
  {
  }

  lemma Front(head: seq<Byte>, tail: seq<Byte>, rest: seq<Byte>)
    ensures (head + tail + rest)[..|head|] == head
    ensures (head + tail + rest)[|head|..] == tail + rest
  {
  }
}
