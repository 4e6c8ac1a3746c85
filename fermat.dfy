/** The number theory behind the Miller-Rabin test: the binomial theorem, Fermat's little theorem
    and the fact that 1 has only the square roots 1 and -1 modulo a prime. */
module Fermat {
  import opened Arith

  /** Binomial coefficient by Pascal's rule. */
  function Binom(n: nat, k: nat): nat
  {
    if k == 0 then 1 else if n == 0 then 0 else Binom(n - 1, k - 1) + Binom(n - 1, k)
  }

  lemma {:induction false} BinomAbove(n: nat, k: nat)
    requires k > n
    ensures Binom(n, k) == 0
    decreases n
  {
    if n > 0 {
      BinomAbove(n - 1, k - 1);
      BinomAbove(n - 1, k);
    }
  }

  lemma {:induction false} BinomDiagonal(n: nat)
    ensures Binom(n, n) == 1
  {
    if n > 0 {
      BinomDiagonal(n - 1);
      BinomAbove(n - 1, n);
    }
  }

  lemma {:induction false} BinomOne(n: nat)
    ensures Binom(n, 1) == n
  {
    if n > 0 {
      BinomOne(n - 1);
    }
  }

  /** The absorption identity k * C(n, k) == n * C(n - 1, k - 1). */
  lemma {:induction false} Absorption(n: nat, k: nat)
    requires 1 <= k <= n
    ensures k * Binom(n, k) == n * Binom(n - 1, k - 1)
    decreases n, 1
  {
    if k == 1 {
      BinomOne(n);
    } else {
      var a, b := Binom(n - 1, k - 1), Binom(n - 1, k);
      var c, d := Binom(n - 2, k - 2), Binom(n - 2, k - 1);
      assert (k - 1) * a == (n - 1) * c by { Absorption(n - 1, k - 1); }
      assert k * b == (n - 1) * d by { AbsorptionNext(n, k); }
      assert Binom(n, k) == a + b && a == c + d;
      AbsorptionStep(n, k, a, b, c, d);
    }
  }

  /** Absorption for C(n - 1, k), which also covers k == n, where both sides are 0. */
  lemma {:induction false} AbsorptionNext(n: nat, k: nat)
    requires 2 <= k <= n
    ensures k * Binom(n - 1, k) == (n - 1) * Binom(n - 2, k - 1)
    decreases n, 0
  {
    if k <= n - 1 {
      Absorption(n - 1, k);
    } else {
      BinomAbove(n - 1, k);
      BinomAbove(n - 2, k - 1);
    }
  }

  /** The ring identity behind one induction step of Absorption. */
  lemma {:induction false} AbsorptionStep(n: int, k: int, a: int, b: int, c: int, d: int)
    requires (k - 1) * a == (n - 1) * c && k * b == (n - 1) * d && a == c + d
    ensures k * (a + b) == n * a
  {
    assert k * a == (k - 1) * a + a;
    assert (n - 1) * c + (n - 1) * d == (n - 1) * a;
  }

  /** The sum of the terms C(n, j) * x^j for j = 0 .. k. */
  function BinomSum(n: nat, x: nat, k: nat): nat
  {
    if k == 0 then 1 else BinomSum(n, x, k - 1) + Binom(n, k) * Pow(x, k)
  }

  /** Pascal's rule lifted to the partial sums. */
  lemma {:induction false} PascalSum(n: nat, x: nat, k: nat)
    requires k >= 1
    ensures BinomSum(n + 1, x, k) == BinomSum(n, x, k) + x * BinomSum(n, x, k - 1)
  {
    if k == 1 {
      var b := Binom(n, 1);
      assert Binom(n + 1, 1) == 1 + b;
      assert Pow(x, 1) == x;
      assert (1 + b) * x == b * x + x;
    } else {
      var p: int, xk: int := Pow(x, k - 1), Pow(x, k);
      var s1: int, s2: int := BinomSum(n, x, k - 1), BinomSum(n, x, k - 2);
      var b1: int, b2: int := Binom(n, k - 1), Binom(n, k);
      var t: int := BinomSum(n + 1, x, k - 1);
      assert t == s1 + x * s2 by { PascalSum(n, x, k - 1); }
      assert BinomSum(n + 1, x, k) == t + (b1 + b2) * xk;
      assert BinomSum(n, x, k) == s1 + b2 * xk;
      assert BinomSum(n, x, k - 1) == s2 + b1 * p;
      PascalStep(s1, s2, b1, b2, x, p, xk);
    }
  }

  /** The ring identity behind one induction step of PascalSum. */
  lemma {:induction false} PascalStep(s1: int, s2: int, b1: int, b2: int, x: int, p: int, xk: int)
    requires xk == x * p
    ensures s1 + x * s2 + (b1 + b2) * xk == (s1 + b2 * xk) + x * (s2 + b1 * p)
  {
    assert (b1 + b2) * xk == b1 * xk + b2 * xk;
    assert x * (s2 + b1 * p) == x * s2 + b1 * xk;
  }

  /** The binomial theorem for (x + 1)^n. */
  lemma {:induction false} BinomialTheorem(n: nat, x: nat)
    ensures Pow(x + 1, n) == BinomSum(n, x, n)
  {
    if n > 0 {
      var s: int := BinomSum(n - 1, x, n - 1);
      assert Pow(x + 1, n) == (x + 1) * s by { BinomialTheorem(n - 1, x); }
      assert BinomSum(n, x, n) == s + x * s by {
        BinomAbove(n - 1, n);
        PascalSum(n - 1, x, n);
      }
      assert (x + 1) * s == s + x * s;
    }
  }

  /** A prime p divides C(p, k) for 0 < k < p. */
  lemma {:induction false} PrimeDividesBinom(p: nat, k: nat)
    requires IsPrime(p) && 1 <= k < p
    ensures Divides(p, Binom(p, k))
  {
    Absorption(p, k);
    DividesMultiple(p, Binom(p - 1, k - 1));
    EuclidLemma(p, k, Binom(p, k));
    if Divides(p, k) {
      DivisorBound(p, k);
      assert false;
    }
  }

  /** The inner terms of (x + 1)^p vanish modulo p. */
  lemma {:induction false} InnerTermsVanish(p: nat, x: nat, k: nat)
    requires IsPrime(p) && k < p
    ensures Divides(p, BinomSum(p, x, k) - 1)
  {
    if k == 0 {
      DividesMultiple(p, 0);
    } else {
      InnerTermsVanish(p, x, k - 1);
      PrimeDividesBinom(p, k);
      DividesCombination(p, BinomSum(p, x, k - 1) - 1, Binom(p, k), 1, Pow(x, k));
    }
  }

  /** (x + 1)^p and x^p + 1 agree modulo a prime p. */
  lemma {:induction false} FreshmansDream(p: nat, x: nat)
    requires IsPrime(p)
    ensures Divides(p, Pow(x + 1, p) - Pow(x, p) - 1)
  {
    BinomialTheorem(p, x);
    BinomDiagonal(p);
    InnerTermsVanish(p, x, p - 1);
    assert BinomSum(p, x, p) == BinomSum(p, x, p - 1) + Pow(x, p);
  }

  /** x^p and x agree modulo a prime p. */
  lemma {:induction false} FermatPower(p: nat, x: nat)
    requires IsPrime(p)
    ensures Divides(p, Pow(x, p) - x)
  {
    if x == 0 {
      assert Pow(0, p) == 0;
      DividesMultiple(p, 0);
    } else {
      FermatPower(p, x - 1);
      FreshmansDream(p, x - 1);
      DividesCombination(p, Pow(x, p) - Pow(x - 1, p) - 1, Pow(x - 1, p) - (x - 1), 1, 1);
    }
  }

  /** A remainder of 1 is what divisibility of z - 1 means. */
  lemma {:induction false} DividesPredecessor(p: nat, z: int)
    requires p >= 2 && Divides(p, z - 1)
    ensures z % p == 1
  {
    DividesQuotient(p, z - 1);
    DivModUnique(z, p, (z - 1) / p, 1);
  }

  /** Fermat's little theorem: a^(p-1) leaves remainder 1 modulo a prime p not dividing a. */
  lemma {:induction false} FermatLittle(p: nat, a: nat)
    requires IsPrime(p) && !Divides(p, a)
    ensures Pow(a, p - 1) % p == 1
  {
    var z: int := Pow(a, p - 1);
    assert Pow(a, p) - a == a * (z - 1) by {
      assert Pow(a, p) == a * z;
      assert a * z - a == a * (z - 1);
    }
    FermatPower(p, a);
    EuclidLemma(p, a, z - 1);
    DividesPredecessor(p, z);
  }

  /** Modulo a prime, the only square roots of 1 are 1 and p - 1. */
  lemma {:induction false} SquareRootsOfOne(p: nat, x: nat)
    requires IsPrime(p) && x < p && (x * x) % p == 1
    ensures x == 1 || x == p - 1
  {
    assert x > 0;
    assert Divides(p, (x - 1) * (x + 1)) by {
      DivModUnique(x * x, p, (x * x) / p, 1);
      assert (x - 1) * (x + 1) == p * ((x * x) / p);
      DividesMultiple(p, (x * x) / p);
    }
    EuclidLemma(p, x - 1, x + 1);
    if Divides(p, x - 1) && x - 1 > 0 {
      DivisorBound(p, x - 1);
      assert false;
    }
    if !Divides(p, x - 1) {
      DivisorBound(p, x + 1);
    }
  }
}
