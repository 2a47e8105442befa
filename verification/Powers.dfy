/** Powers of two and the prefixes of addresses they cut off. Masking the low bits of an
    unsigned integer, x & ~((1 << b) - 1), is rounding it down to a multiple of 2^b. */
module Powers {
  function Pow2(b: nat): (r: nat)
    ensures r > 0
  {
    if b == 0 then 1 else 2 * Pow2(b - 1)
  }

  /** x & ~((1 << b) - 1) */
  function ClearLow(x: nat, b: nat): (r: nat)
    ensures r <= x < r + Pow2(b)
  {
    DivMod(x, Pow2(b));
    x - x % Pow2(b)
  }

  lemma DivMod(x: nat, d: nat)
    requires d > 0
    ensures x % d < d && x % d <= x && x == x / d * d + x % d
  {
  }

  lemma {:induction false} Pow2Adds(a: nat, b: nat)
    ensures Pow2(a + b) == Pow2(a) * Pow2(b)
  {
    if b > 0 { Pow2Adds(a, b - 1); }
  }

  lemma Pow2Of32()
    ensures Pow2(32) == 0x1_0000_0000
  {
    assert Pow2(8) == 0x100;
    Pow2Adds(8, 8);
    Pow2Adds(16, 16);
  }

  lemma {:induction false} Pow2Monotone(a: nat, b: nat)
    requires a <= b
    ensures Pow2(a) <= Pow2(b)
  {
    Pow2Adds(a, b - a);
    assert Pow2(a) * Pow2(b - a) >= Pow2(a) by { TimesAtLeast(Pow2(a), Pow2(b - a)); }
  }

  lemma TimesAtLeast(x: nat, y: nat)
    requires y > 0
    ensures x * y >= x
  {
  }

  lemma ModIsUnique(x: nat, q: nat, d: nat, r: nat)
    requires d > 0 && r < d && x == q * d + r
    ensures x % d == r && x / d == q
  {
    var q', r' := x / d, x % d;
    assert x == q' * d + r';
    assert (q - q') * d == r' - r;
    if q > q' { TimesAtLeast(d, q - q'); } else if q < q' { TimesAtLeast(d, q' - q); }
  }

  /** n is what remains of x exactly when n has no low bits and x lies in the block at n. */
  lemma ClearLowIsBlock(x: nat, b: nat, n: nat)
    ensures ClearLow(x, b) == n <==> n % Pow2(b) == 0 && n <= x < n + Pow2(b)
  {
    var d := Pow2(b);
    DivMod(x, d);
    ModIsUnique(x - x % d, x / d, d, 0);
    if n % d == 0 && n <= x < n + d {
      DivMod(n, d);
      ModIsUnique(x, n / d, d, x - n);
    }
  }

  /** Cutting off more bits afterwards is cutting them off at once. */
  lemma ClearLowTwice(x: nat, b: nat, c: nat)
    requires b <= c
    ensures ClearLow(ClearLow(x, b), c) == ClearLow(x, c)
  {
    var d, e, k := Pow2(b), Pow2(c), Pow2(c - b);
    Pow2Adds(b, c - b);
    DivMod(x, e);
    var q, r := x / e, x % e;
    DivMod(r, d);
    var s, t := r / d, r % d;
    Regroup(q, k, d, s);
    ModIsUnique(x, q * k + s, d, t);
    ModIsUnique(x - t, q, e, s * d);
  }

  lemma Regroup(q: nat, k: nat, d: nat, s: nat)
    ensures (q * k + s) * d == q * (d * k) + s * d
  {
  }
}
