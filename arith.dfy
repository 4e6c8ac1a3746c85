/** Arithmetic on unbounded naturals: powers, modular exponentiation, divisibility, Euclid's gcd,
    Bezout coefficients and Euclid's lemma. `num_bigint::BigUint` values are modelled as `nat`. */
module Arith {

  /** b raised to the e-th power. */
  function Pow(b: nat, e: nat): nat
  {
    if e == 0 then 1 else b * Pow(b, e - 1)
  }

  /** d divides n (0 divides only 0). For d > 0 this is Dafny's Euclidean `n % d == 0`, which is
      the mathematical divisibility also for negative n. */
  predicate Divides(d: nat, n: int)
  {
    if d == 0 then n == 0 else n % d == 0
  }

  /** Primality in the mathematical sense. */
  ghost predicate IsPrime(n: nat)
  {
    n >= 2 && forall k :: 2 <= k < n ==> !Divides(k, n)
  }

  // ---------------------------------------------------------------------------------------------
  // Division and remainder

  /** Euclidean division is unique: any q, r with a == q * m + r and 0 <= r < m are a / m, a % m. */
  lemma {:induction false} DivModUnique(a: int, m: int, q: int, r: int)
    requires m > 0 && 0 <= r < m && a == q * m + r
    ensures a % m == r && a / m == q
  {
    var q', r' := a / m, a % m;
    assert (q' - q) * m == r - r';
    if q' - q >= 1 {
      MulAtLeast(q' - q, m);
      assert false;
    }
    if q - q' >= 1 {
      MulAtLeast(q - q', m);
      assert false;
    }
  }

  lemma {:induction false} MulAtLeast(k: int, m: int)
    requires k >= 1 && m > 0
    ensures k * m >= m
  {
    assert k * m == (k - 1) * m + m;
  }

  /** Reducing twice is reducing once. */
  lemma {:induction false} ModMod(a: int, m: int)
    requires m > 0
    ensures (a % m) % m == a % m
  {
    DivModUnique(a % m, m, 0, a % m);
  }

  /** Adding a multiple of m does not change the remainder modulo m. */
  lemma {:induction false} ModAddMultiple(a: int, k: int, m: int)
    requires m > 0
    ensures (a + k * m) % m == a % m
  {
    DivModUnique(a + k * m, m, a / m + k, a % m);
  }

  /** The remainder of a product depends only on the remainders of its factors. */
  lemma {:induction false} MulMod(x: int, y: int, m: int)
    requires m > 0
    ensures (x * y) % m == ((x % m) * (y % m)) % m
  {
    var qx, rx := x / m, x % m;
    var qy, ry := y / m, y % m;
    var k := qx * ry + rx * qy + qx * qy * m;
    ProductExpand(x, y, m, qx, rx, qy, ry, k);
    ModAddMultiple(rx * ry, k, m);
  }

  /** Multiplying out (qx * m + rx) * (qy * m + ry). */
  lemma {:induction false} ProductExpand(x: int, y: int, m: int, qx: int, rx: int, qy: int, ry: int, k: int)
    requires x == qx * m + rx && y == qy * m + ry && k == qx * ry + rx * qy + qx * qy * m
    ensures x * y == rx * ry + k * m
  {
  }

  /** Exponents add when powers of the same base multiply. */
  lemma {:induction false} PowAdd(b: nat, e1: nat, e2: nat)
    ensures Pow(b, e1 + e2) == Pow(b, e1) * Pow(b, e2)
    decreases e1
  {
    if e1 > 0 {
      var rest: int := Pow(b, e1 - 1 + e2);
      assert rest == Pow(b, e1 - 1) * Pow(b, e2) by { PowAdd(b, e1 - 1, e2); }
      assert Pow(b, e1 + e2) == b * rest;
      Regroup(b, Pow(b, e1 - 1), Pow(b, e2), rest);
    }
  }

  /** Raising to a product of exponents is raising twice. */
  lemma {:induction false} PowMul(b: nat, e1: nat, e2: nat)
    ensures Pow(b, e1 * e2) == Pow(Pow(b, e1), e2)
    decreases e2
  {
    if e2 > 0 {
      var e: nat := e1 * (e2 - 1);
      var x: int := Pow(b, e1);
      assert e1 * e2 == e + e1;
      assert Pow(b, e + e1) == Pow(b, e) * x by { PowAdd(b, e, e1); }
      assert Pow(b, e) == Pow(x, e2 - 1) by { PowMul(b, e1, e2 - 1); }
    }
  }

  lemma {:induction false} PowPositive(b: nat, e: nat)
    requires b > 0
    ensures Pow(b, e) > 0
  {
    if e > 0 {
      PowPositive(b, e - 1);
    }
  }

  /** Factors with equal remainders give products with equal remainders. */
  lemma {:induction false} MulModCongruence(x: int, y: int, x': int, y': int, m: int)
    requires m > 0 && x % m == x' % m && y % m == y' % m
    ensures (x * y) % m == (x' * y') % m
  {
    MulMod(x, y, m);
    MulMod(x', y', m);
  }

  /** A power's remainder depends only on the base's remainder. */
  lemma {:induction false} PowMod(b: nat, e: nat, m: nat)
    requires m > 0
    ensures Pow(b % m, e) % m == Pow(b, e) % m
  {
    if e > 0 {
      PowMod(b, e - 1, m);
      ModMod(b, m);
      MulModCongruence(b % m, Pow(b % m, e - 1), b, Pow(b, e - 1), m);
    }
  }

  /** One step of square-and-multiply: consuming the low bit of e and squaring the base keeps
      r * b^e unchanged modulo m. */
  lemma {:induction false} SquareAndMultiplyStep(r: nat, b: nat, e: nat, m: nat)
    requires m > 0 && e > 0
    ensures ((if e % 2 == 1 then (r * b) % m else r) * Pow((b * b) % m, e / 2)) % m
         == (r * Pow(b, e)) % m
  {
    var c: int := if e % 2 == 1 then b else 1;
    var h: int := Pow(b * b, e / 2);
    var r': int := if e % 2 == 1 then (r * b) % m else r;
    var pe: int := Pow(b, e);
    var sq: int := Pow((b * b) % m, e / 2);
    assert pe == c * h by { PowSplitLowBit(b, e); }
    assert r' % m == (r * c) % m by {
      if e % 2 == 1 { ModMod(r * b, m); }
    }
    assert sq % m == h % m by { PowMod(b * b, e / 2, m); }
    MulModCongruence(r', sq, r * c, h, m);
    Regroup(r, c, h, pe);
  }

  /** Associativity of the product r * c * h, with c * h named. */
  lemma {:induction false} Regroup(r: int, c: int, h: int, pe: int)
    requires pe == c * h
    ensures (r * c) * h == r * pe
  {
  }

  lemma {:induction false} PowTwo(b: nat)
    ensures Pow(b, 2) == b * b
  {
    assert Pow(b, 1) == b;
  }

  /** b^e is b^(e % 2) times (b * b)^(e / 2). */
  lemma {:induction false} PowSplitLowBit(b: nat, e: nat)
    ensures Pow(b, e) == (if e % 2 == 1 then b else 1) * Pow(b * b, e / 2)
  {
    assert Pow(b, 2 * (e / 2)) == Pow(b * b, e / 2) by {
      PowMul(b, 2, e / 2);
      PowTwo(b);
    }
    if e % 2 == 1 {
      assert e == 1 + 2 * (e / 2);
      PowAdd(b, 1, 2 * (e / 2));
    } else {
      assert e == 2 * (e / 2);
    }
  }

  /** Modular exponentiation by square-and-multiply (src/lib.rs `mod_exp`). A zero modulus makes
      the source panic on `base % modulus`, so callers must pass a positive one. */
  method ModExp(base: nat, exp: nat, modulus: nat) returns (result: nat)
    requires modulus > 0
    ensures result == Pow(base, exp) % modulus
    ensures result < modulus
  {
    if modulus == 1 {
      DivModUnique(Pow(base, exp), 1, Pow(base, exp), 0);
      return 0;
    }
    result := 1;
    var b: nat := base % modulus;
    var e := exp;
    PowMod(base, exp, modulus);
    while e > 0
      invariant result < modulus && b < modulus
      invariant (result * Pow(b, e)) % modulus == Pow(base, exp) % modulus
    {
      SquareAndMultiplyStep(result, b, e, modulus);
      if e % 2 == 1 {
        result := (result * b) % modulus;
      }
      e := e / 2;
      b := (b * b) % modulus;
    }
    assert result * Pow(b, e) == result;
    DivModUnique(result, modulus, 0, result);
  }

  // ---------------------------------------------------------------------------------------------
  // Divisibility

  lemma {:induction false} DividesQuotient(d: nat, n: int)
    requires d > 0 && Divides(d, n)
    ensures n == d * (n / d)
  {
  }

  lemma {:induction false} DividesMultiple(d: nat, k: int)
    ensures Divides(d, d * k)
  {
    if d > 0 {
      DivModUnique(d * k, d, k, 0);
    }
  }

  /** Divisors of x and y divide every integer combination s * x + t * y. */
  lemma {:induction false} DividesCombination(d: nat, x: int, y: int, s: int, t: int)
    requires Divides(d, x) && Divides(d, y)
    ensures Divides(d, s * x + t * y)
  {
    if d > 0 {
      var kx, ky := x / d, y / d;
      DividesQuotient(d, x);
      DividesQuotient(d, y);
      assert s * x + t * y == d * (s * kx + t * ky);
      DividesMultiple(d, s * kx + t * ky);
    }
  }

  /** A positive multiple of d is at least d. */
  lemma {:induction false} DivisorBound(d: nat, n: nat)
    requires n > 0 && Divides(d, n)
    ensures 0 < d <= n
  {
    DividesQuotient(d, n);
    assert n / d >= 1;
  }

  /** Euclid's gcd (src/lib.rs `gcd`): the result is a common divisor of a and b, and it is 0 only
      when both are. */
  function Gcd(a: nat, b: nat): (g: nat)
    decreases b
    ensures Divides(g, a) && Divides(g, b)
    ensures g == 0 <==> a == 0 && b == 0
  {
    if b == 0 then a
    else
      var g := Gcd(b, a % b);
      assert a == (a / b) * b + 1 * (a % b);
      DividesCombination(g, b, a % b, a / b, 1);
      g
  }

  /** Every common divisor of a and b divides Gcd(a, b): the result is the greatest one. */
  lemma {:induction false} GcdGreatest(a: nat, b: nat, c: nat)
    requires Divides(c, a) && Divides(c, b)
    ensures Divides(c, Gcd(a, b))
    decreases b
  {
    if b != 0 {
      assert a % b == 1 * a + (-(a / b)) * b;
      DividesCombination(c, a, b, 1, -(a / b));
      GcdGreatest(b, a % b, c);
    }
  }

  /** Bezout: the gcd is an integer combination of its arguments. */
  lemma {:induction false} Bezout(a: nat, b: nat) returns (s: int, t: int)
    ensures s * a + t * b == Gcd(a, b)
    decreases b
  {
    if b == 0 {
      s, t := 1, 0;
    } else {
      var q, rem := a / b, a % b;
      var s', t' := Bezout(b, rem);
      s, t := t', s' - t' * q;
      BezoutStep(a, b, q, rem, s', t', Gcd(a, b));
    }
  }

  /** Back-substituting a = q * b + rem into a combination of b and rem. */
  lemma {:induction false} BezoutStep(a: int, b: int, q: int, rem: int, s: int, t: int, g: int)
    requires a == q * b + rem && s * b + t * rem == g
    ensures t * a + (s - t * q) * b == g
  {
    assert t * a == t * (q * b) + t * rem;
    assert (s - t * q) * b == s * b - (t * q) * b;
    assert t * (q * b) == (t * q) * b;
  }

  /** The only divisors of a prime are 1 and itself. */
  lemma {:induction false} PrimeDivisor(p: nat, d: nat)
    requires IsPrime(p) && Divides(d, p)
    ensures d == 1 || d == p
  {
    DivisorBound(d, p);
  }

  /** Replacing a factor by its remainder modulo p keeps divisibility of the product by p. */
  lemma {:induction false} DividesReducedProduct(p: nat, x: int, y: int)
    requires p > 0 && Divides(p, x * y)
    ensures Divides(p, (x % p) * y)
  {
    ModMod(x, p);
    MulModCongruence(x, y, x % p, y, p);
  }

  /** Euclid's lemma: a prime dividing a product divides one of the factors. */
  lemma {:induction false} EuclidLemma(p: nat, x: int, y: int)
    requires IsPrime(p) && Divides(p, x * y)
    ensures Divides(p, x) || Divides(p, y)
  {
    if !Divides(p, x) {
      var a: nat := x % p;
      assert 0 < a < p;
      DividesReducedProduct(p, x, y);
      var g := Gcd(a, p);
      PrimeDivisor(p, g);
      if g == p {
        DivisorBound(p, a);
        assert false;
      }
      var s, t := Bezout(a, p);
      assert Divides(p, p * y) by { DividesMultiple(p, y); }
      DividesCombination(p, a * y, p * y, s, t);
      UnitCombination(s, a, t, p, y);
    }
  }

  /** When s * a + t * p == 1, the combination of a * y and p * y with s and t is y itself. */
  lemma {:induction false} UnitCombination(s: int, a: int, t: int, p: int, y: int)
    requires s * a + t * p == 1
    ensures s * (a * y) + t * (p * y) == y
  {
    assert s * (a * y) + t * (p * y) == (s * a + t * p) * y;
  }
}
