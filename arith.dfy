/** Facts about Euclidean division and remainder on integers, used by the
    field model and by the instruction-key packing. */
module Arith {

  /** Division by d is unique: whoever writes n as q * d + r with a
      remainder in range has found n / d and n % d. */
  lemma DivModUnique(n: int, d: int, q: int, r: int)
    requires d > 0 && 0 <= r < d && n == q * d + r
    ensures n / d == q && n % d == r
  {
    var q0, r0 := n / d, n % d;
    assert n == q0 * d + r0;
    var k := q - q0;
    assert k * d == r0 - r;
  }

  /** Adding a multiple of d does not change the remainder. */
  lemma ModAddMultiple(c: int, k: int, d: int)
    requires d > 0
    ensures (c + k * d) % d == c % d
  {
    assert c == (c / d) * d + c % d;
    assert c + k * d == (c / d + k) * d + c % d;
    DivModUnique(c + k * d, d, c / d + k, c % d);
  }

  /** The remainder of a product depends on the left factor's remainder only. */
  lemma ModMulLeft(x: int, y: int, d: int)
    requires d > 0
    ensures (x * y) % d == ((x % d) * y) % d
  {
    var q := x / d;
    assert x == q * d + x % d;
    assert x * y == (x % d) * y + (q * y) * d;
    ModAddMultiple((x % d) * y, q * y, d);
  }

  /** The remainder of a product depends on the right factor's remainder only. */
  lemma ModMulRight(x: int, y: int, d: int)
    requires d > 0
    ensures (x * y) % d == (x * (y % d)) % d
  {
    ModMulLeft(y, x, d);
    assert x * y == y * x;
    assert x * (y % d) == (y % d) * x;
  }

  /** A multiple of d strictly between -d and d is 0. */
  lemma SmallMultipleIsZero(v: int, d: int)
    requires d > 0 && -d < v < d && v % d == 0
    ensures v == 0
  {
    DivModUnique(v, d, v / d, 0);
    var q := v / d;
    assert v == q * d;
  }

  /** Peeling the low digit off hi * base + lo recovers both parts. */
  lemma DivModPack(hi: int, lo: int, base: int)
    requires base > 0 && 0 <= lo < base
    ensures (hi * base + lo) / base == hi && (hi * base + lo) % base == lo
  {
    DivModUnique(hi * base + lo, base, hi, lo);
  }

  /** Appending a digit keeps a bound: hi < h implies hi * base + lo < h * base. */
  lemma PackBound(hi: nat, lo: nat, base: nat, h: nat)
    requires hi < h && lo < base
    ensures hi * base + lo < h * base
  {
    var k := h - hi;
    assert k >= 1;
    assert h * base == hi * base + k * base;
    assert k * base >= base;
  }

  /** A number below h * d has a quotient by d below h. */
  lemma DivBound(n: nat, d: nat, h: nat)
    requires d > 0 && n < h * d
    ensures n / d < h
  {
    var q := n / d;
    assert q * d <= n;
    assert (h - q) * d == h * d - q * d;
    assert (h - q) * d > 0;
  }
}
