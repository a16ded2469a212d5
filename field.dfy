/** The prime field the circuits are written over, modelled on integers.

    A cell holds an integer standing for a field element; a polynomial
    identity "holds" at a row when its integer value is 0 modulo the prime
    p. The circuits are generic over the field, so p stays a parameter; the
    only facts used about it are that it is prime and larger than 2^65, so
    that u64 values and their sums and differences never wrap. */
module Field {
  import opened Arith
  import opened Specs

  /** n mod d, as a function so that primality has a trigger. */
  function Rem(n: nat, d: nat): nat
    requires d > 0
  {
    n % d
  }

  ghost predicate IsPrime(p: nat) {
    p > 1 && forall d :: 1 < d < p ==> Rem(p, d) != 0
  }

  /** The assumption made about the circuit field throughout. */
  ghost predicate FieldModulus(p: nat) {
    p > TWO_65 && IsPrime(p)
  }

  /** An identity's value is zero in the field. */
  predicate IsZero(p: nat, v: int)
    requires p > 0
  {
    v % p == 0
  }

  /** Every expression of a constraint's list is zero in the field. */
  predicate AllZero(p: nat, es: seq<int>)
    requires p > 0
  {
    forall i :: 0 <= i < |es| ==> IsZero(p, es[i])
  }

  /** A single expression that is zero in the field makes its list zero. */
  lemma SingleZero(p: nat, es: seq<int>)
    requires p > 0 && |es| == 1 && es[0] % p == 0
    ensures AllZero(p, es)
  {
  }

  /** A field element: the canonical representative in [0, p). */
  predicate InField(p: nat, v: int) {
    0 <= v < p
  }

  /** Bezout coefficients: g == a * x + b * y, and g divides a and b. */
  datatype Bezout = Bezout(g: nat, x: int, y: int, ka: nat, kb: nat)

  /** One step of the extended Euclidean algorithm: coefficients for
      (b, a % b) give coefficients for (a, b). */
  lemma EgcdStep(a: int, b: int, q: int, m: int, g: int, x: int, y: int, ka: int, kb: int)
    requires a == q * b + m && b * x + m * y == g && g * ka == b && g * kb == m
    ensures a * y + b * (x - q * y) == g
    ensures g * (q * ka + kb) == a
  {
    calc {
      a * y + b * (x - q * y);
      (q * b + m) * y + b * x - b * (q * y);
      { assert (q * b + m) * y == q * b * y + m * y; assert b * (q * y) == q * b * y; }
      m * y + b * x;
    }
    calc {
      g * (q * ka + kb);
      q * (g * ka) + g * kb;
    }
  }

  /** The extended Euclidean algorithm. */
  function Egcd(a: nat, b: nat): (r: Bezout)
    ensures a * r.x + b * r.y == r.g
    ensures r.g * r.ka == a && r.g * r.kb == b
    decreases b
  {
    if b == 0 then Bezout(a, 1, 0, 1, 0)
    else
      var q, m := a / b, a % b;
      var s := Egcd(b, m);
      EgcdStep(a, b, q, m, s.g, s.x, s.y, s.ka, s.kb);
      Bezout(s.g, s.y, s.x - q * s.y, q * s.ka + s.kb, s.ka)
  }

  /** A factor of a positive number is positive and no larger than it. */
  lemma FactorBound(g: nat, k: nat, a: nat)
    requires g * k == a && a > 0
    ensures 0 < g <= a
  {
    assert k >= 1;
    assert g * k >= g * 1;
  }

  /** A factor of a prime that is smaller than the prime is 1. */
  lemma PrimeFactor(p: nat, g: nat, k: nat)
    requires IsPrime(p) && g * k == p && 0 < g < p
    ensures g == 1
  {
    if g > 1 {
      assert Rem(p, g) != 0;
      DivModUnique(p, g, k, 0);
      assert false;
    }
  }

  /** A nonzero residue a of a prime p is coprime to it. */
  lemma CoprimeToPrime(p: nat, a: nat)
    requires IsPrime(p) && 0 < a < p
    ensures Egcd(a, p).g == 1
  {
    var b := Egcd(a, p);
    FactorBound(b.g, b.ka, a);
    PrimeFactor(p, b.g, b.kb);
  }

  /** Bezout coefficients a * x + p * y == 1 make a * x one in the field. */
  lemma BezoutUnit(p: nat, a: int, x: int, y: int)
    requires p > 1 && a * x + p * y == 1
    ensures (a * x) % p == 1
  {
    assert a * x == 1 + (-y) * p;
    ModAddMultiple(1, -y, p);
  }

  /** From Bezout coefficients a * x + p * y == 1, x mod p inverts every
      integer congruent to a. */
  lemma BezoutInverse(p: nat, c: int, a: int, x: int, y: int)
    requires p > 1 && a == c % p && a * x + p * y == 1
    ensures (c * (x % p)) % p == 1
  {
    ModMulLeft(c, x % p, p);
    ModMulRight(a, x, p);
    BezoutUnit(p, a, x, y);
  }

  /** The value the circuits assign to an inverse cell:
      F::from(x).invert().unwrap_or(F::zero()). */
  function InvOrZero(p: nat, x: int): (r: nat)
    requires IsPrime(p)
    ensures r < p
    ensures x % p == 0 ==> r == 0
    ensures x % p != 0 ==> (x * r) % p == 1
  {
    var a := x % p;
    if a == 0 then 0
    else
      var b := Egcd(a, p);
      CoprimeToPrime(p, a);
      BezoutInverse(p, x, a, b.x, b.y);
      b.x % p
  }

  lemma Reassociate(i: int, a: int, b: int)
    ensures i * (a * b) == (a * i) * b
  {
  }

  lemma MulZeroMod(i: int, m: int, p: nat)
    requires p > 0 && m % p == 0
    ensures (i * m) % p == 0
  {
    ModMulRight(i, m, p);
  }

  lemma MulOneMod(u: int, b: int, p: nat)
    requires p > 0 && u % p == 1
    ensures (u * b) % p == b % p
  {
    ModMulLeft(u, b, p);
  }

  /** A field has no zero divisors: a nonzero factor can be cancelled. */
  lemma CancelNonZero(p: nat, a: int, b: int)
    requires IsPrime(p) && a % p != 0 && (a * b) % p == 0
    ensures b % p == 0
  {
    var i := InvOrZero(p, a);
    MulZeroMod(i, a * b, p);
    Reassociate(i, a, b);
    MulOneMod(a * i, b, p);
  }

  /** An integer that is one in the field, less one, is zero in the field. */
  lemma OneMinus(p: nat, x: int)
    requires p > 1 && x % p == 1
    ensures (x - 1) % p == 0
  {
    DivModUnique(x - 1, p, x / p, 0);
  }

  /** One less an integer that is one in the field is zero in the field. */
  lemma OneMinusIsZero(p: nat, x: int)
    requires p > 1 && x % p == 1
    ensures (1 - x) % p == 0
  {
    DivModUnique(1 - x, p, -(x / p), 0);
  }

  /** A product with a factor that is zero in the field is zero in it. */
  lemma ZeroTimes(p: nat, m: int, i: int)
    requires p > 0 && m % p == 0
    ensures (m * i) % p == 0
  {
    ModMulLeft(m, i, p);
  }

  /** Two field elements that are equal in the field are the same integer;
      so is an integer below the modulus in absolute value that is zero. */
  lemma ZeroInRange(p: nat, v: int)
    requires p > 0 && -v < p && v < p && v % p == 0
    ensures v == 0
  {
    SmallMultipleIsZero(v, p);
  }
}
