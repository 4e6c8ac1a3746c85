/** Factoring the challenge semiprimes (src/lib.rs `factor_semiprime`, `pollard_rho`): trial
    division below one million, then Pollard's rho with Floyd's cycle finding over
    f(v) = (v * v + 1) % n. */
module Factor {
  import opened Arith
  import opened Errors

  /** Trial division tries every p in [2, TrialLimit). */
  const TrialLimit: nat := 1_000_000

  /** The pseudo-random map of Pollard's rho. */
  function RhoStep(n: nat, v: nat): (w: nat)
    requires n > 0
    ensures w < n
  {
    (v * v + 1) % n
  }

  /** The k-th element of the sequence 2, f(2), f(f(2)), ... */
  function Orbit(n: nat, k: nat): nat
    requires n > 0
  {
    if k == 0 then 2 else RhoStep(n, Orbit(n, k - 1))
  }

  /** The distance between two naturals, `if x > y { x - y } else { y - x }`. */
  function Distance(x: nat, y: nat): (r: nat)
    ensures r == 0 <==> x == y
  {
    if x > y then x - y else y - x
  }

  /** The gcd the loop computes after its i-th step: tortoise at i steps, hare at 2i steps. */
  function RhoGcd(n: nat, i: nat): nat
    requires n > 0
  {
    Gcd(Distance(Orbit(n, i), Orbit(n, 2 * i)), n)
  }

  /** The gcd of 0 and n is n. */
  lemma {:induction false} GcdZero(n: nat)
    ensures Gcd(0, n) == n
  {
    if n > 0 {
      DivModUnique(0, n, 0, 0);
      assert Gcd(0, n) == Gcd(n, 0);
    }
  }

  /** The failure case of rho: the gcd is n itself exactly when tortoise and hare meet. */
  lemma {:induction false} RhoFailsWhenCycleCloses(n: nat, i: nat)
    requires n >= 2 && i >= 1
    ensures RhoGcd(n, i) == n <==> Orbit(n, i) == Orbit(n, 2 * i)
  {
    var dist := Distance(Orbit(n, i), Orbit(n, 2 * i));
    if dist == 0 {
      GcdZero(n);
    } else {
      assert dist < n;
      DivisorBound(Gcd(dist, n), dist);
    }
  }

  /** For n == 1 every value is 0 and every gcd is 1: the loop of `pollard_rho` never ends. */
  lemma {:induction false} RhoNeverEndsForOne(i: nat)
    ensures RhoGcd(1, i) == 1
  {
    var g := RhoGcd(1, i);
    DivisorBound(g, 1);
  }

  /** What `pollard_rho(n)` returns within `fuel` loop iterations: (2, n / 2) for even n; for odd n
      the first step i whose gcd is not 1 decides, failing when that gcd is n and giving the gcd
      with its cofactor otherwise; IterationLimit when no step within the fuel gets there. */
  ghost predicate RhoOutcome(n: nat, fuel: nat, r: Result<(nat, nat)>)
  {
    if n % 2 == 0 then r == Ok((2, (n / 2) as nat))
    else if forall j :: 1 <= j <= fuel ==> RhoGcd(n, j) == 1 then r == Err(IterationLimit)
    else exists i :: 1 <= i <= fuel && RhoGcd(n, i) != 1 && (forall j :: 1 <= j < i ==> RhoGcd(n, j) == 1)
                     && r == RhoResult(n, RhoGcd(n, i))
  }

  /** The result of `pollard_rho` once the gcd d is not 1. */
  function RhoResult(n: nat, d: nat): Result<(nat, nat)>
    requires d > 0
  {
    if d == n then Err(FactorizationFailed) else Ok((d, n / d))
  }

  /** `pollard_rho(n)` with at most `fuel` loop iterations. Even n gives (2, n / 2). For odd n
      the loop stops at the first step i whose gcd is not 1; that gcd is n exactly when the
      result is the failure error, and otherwise it is a proper divisor p, returned with n / p.
      When no step within the fuel finds a gcd other than 1 the result is IterationLimit, which
      stands for the source looping forever (as it does for n == 1); it is also the result when
      the fuel is smaller than the number of steps a run of the source takes to finish. */
  method PollardRho(n: nat, fuel: nat) returns (r: Result<(nat, nat)>)
    ensures n % 2 == 0 ==> r == Ok((2, (n / 2) as nat))
    ensures n % 2 == 1 && r.Ok? ==>
              var (p, q) := r.value;
              1 < p < n && Divides(p, n) && p * q == n
    ensures n % 2 == 1 && r != Err(IterationLimit) ==>
              exists i :: 1 <= i <= fuel && RhoGcd(n, i) != 1
                          && (forall j :: 1 <= j < i ==> RhoGcd(n, j) == 1)
                          && (r == Err(FactorizationFailed) <==> RhoGcd(n, i) == n)
                          && (r.Ok? ==> r.value.0 == RhoGcd(n, i))
    ensures n % 2 == 1 && r == Err(IterationLimit) ==> forall j :: 1 <= j <= fuel ==> RhoGcd(n, j) == 1
    ensures r.Err? ==> n % 2 == 1 && (r.error == FactorizationFailed || r.error == IterationLimit)
    ensures n == 1 ==> r == Err(IterationLimit)
    ensures RhoOutcome(n, fuel, r)
  {
    if n % 2 == 0 {
      r := Ok((2, n / 2));
    } else {
      var x: nat, y: nat, d: nat := 2, 2, 1;
      var i: nat := 0;
      while d == 1 && i < fuel
        invariant i <= fuel
        invariant x == Orbit(n, i) && y == Orbit(n, 2 * i)
        invariant i == 0 ==> d == 1
        invariant i > 0 ==> d == RhoGcd(n, i)
        invariant forall j :: 1 <= j < i ==> RhoGcd(n, j) == 1
        decreases fuel - i
      {
        assert Orbit(n, 2 * (i + 1)) == RhoStep(n, RhoStep(n, Orbit(n, 2 * i)));
        x := RhoStep(n, x);
        y := RhoStep(n, RhoStep(n, y));
        d := Gcd(Distance(x, y), n);
        i := i + 1;
      }
      if d == 1 {
        r := Err(IterationLimit);
      } else if d == n {
        r := Err(FactorizationFailed);
      } else {
        r := Ok((d, n / d));
      }
      assert RhoOutcome(n, fuel, r) by {
        if d != 1 {
          assert 1 <= i <= fuel && RhoGcd(n, i) != 1 && r == RhoResult(n, RhoGcd(n, i));
        }
      }
    }
    RhoOutcomeFactors(n, fuel, r);
    RhoOutcomeSteps(n, fuel, r);
    if n == 1 {
      RhoOutcomeForOne(fuel, r);
    }
  }

  /** Rho's Ok pair is a proper factorisation, and its errors come only for odd n. */
  lemma {:induction false} RhoOutcomeFactors(n: nat, fuel: nat, r: Result<(nat, nat)>)
    requires RhoOutcome(n, fuel, r)
    ensures n % 2 == 1 && r.Ok? ==>
              var (p, q) := r.value;
              1 < p < n && Divides(p, n) && p * q == n
    ensures r.Err? ==> n % 2 == 1 && (r.error == FactorizationFailed || r.error == IterationLimit)
  {
    if n % 2 == 1 && !(forall j :: 1 <= j <= fuel ==> RhoGcd(n, j) == 1) {
      var i :| 1 <= i <= fuel && RhoGcd(n, i) != 1 && (forall j :: 1 <= j < i ==> RhoGcd(n, j) == 1)
               && r == RhoResult(n, RhoGcd(n, i));
      RhoResultProper(n, RhoGcd(n, i));
    }
  }

  /** A gcd with n other than 1 and n is a proper divisor, and multiplies back with its cofactor. */
  lemma {:induction false} RhoResultProper(n: nat, d: nat)
    requires n > 0 && d > 0 && d != 1 && Divides(d, n)
    ensures RhoResult(n, d).Ok? ==> 1 < d < n && d * (n / d) == n
  {
    if d != n {
      DivisorBound(d, n);
      DividesQuotient(d, n);
    }
  }

  /** Rho's result other than IterationLimit comes from its first step with a gcd other than 1;
      IterationLimit means every step within the fuel had gcd 1. */
  lemma {:induction false} RhoOutcomeSteps(n: nat, fuel: nat, r: Result<(nat, nat)>)
    requires RhoOutcome(n, fuel, r)
    ensures n % 2 == 1 && r != Err(IterationLimit) ==>
              exists i :: 1 <= i <= fuel && RhoGcd(n, i) != 1
                          && (forall j :: 1 <= j < i ==> RhoGcd(n, j) == 1)
                          && (r == Err(FactorizationFailed) <==> RhoGcd(n, i) == n)
                          && (r.Ok? ==> r.value.0 == RhoGcd(n, i))
    ensures n % 2 == 1 && r == Err(IterationLimit) ==> forall j :: 1 <= j <= fuel ==> RhoGcd(n, j) == 1
  {
  }

  /** For n == 1 rho never finds a gcd other than 1. */
  lemma {:induction false} RhoOutcomeForOne(fuel: nat, r: Result<(nat, nat)>)
    requires RhoOutcome(1, fuel, r)
    ensures r == Err(IterationLimit)
  {
    forall j | 1 <= j <= fuel
      ensures RhoGcd(1, j) == 1
    {
      RhoNeverEndsForOne(j);
    }
  }

  /** What `factor_semiprime(n)` returns with rho's iteration bound `fuel`: the least divisor p of n
      in [2, TrialLimit) with n / p when there is one, and rho's outcome otherwise. */
  ghost predicate FactorOutcome(n: nat, fuel: nat, r: Result<(nat, nat)>)
  {
    if exists p :: 2 <= p < TrialLimit && Divides(p, n) then
      exists p :: 2 <= p < TrialLimit && Divides(p, n) && (forall k :: 2 <= k < p ==> !Divides(k, n))
                  && r == TrialResult(n, p)
    else RhoOutcome(n, fuel, r)
  }

  /** The result of trial division once p divides n. */
  function TrialResult(n: nat, p: nat): Result<(nat, nat)>
    requires p > 0
  {
    Ok((p, n / p))
  }

  /** `factor_semiprime(n)` with rho's iteration bound. Trial division returns the least divisor p
      of n in [2, TrialLimit) with n / p; only when there is none does rho decide. Every Ok pair
      multiplies back to n, and its first part is a divisor at least 2 that is below n unless n is
      prime. */
  method FactorSemiprime(n: nat, fuel: nat) returns (r: Result<(nat, nat)>)
    ensures r.Ok? ==> r.value.0 >= 2 && Divides(r.value.0, n) && r.value.0 * r.value.1 == n
    ensures r.Ok? && n > 0 && !IsPrime(n) ==> r.value.0 < n
    ensures forall p :: (2 <= p < TrialLimit && Divides(p, n)
                         && forall k :: 2 <= k < p ==> !Divides(k, n)) ==> r == Ok((p, (n / p) as nat))
    ensures r.Err? ==> forall k :: 2 <= k < TrialLimit ==> !Divides(k, n)
    ensures r.Err? ==> r.error == FactorizationFailed || r.error == IterationLimit
    ensures FactorOutcome(n, fuel, r)
  {
    var p: nat := 2;
    while p < TrialLimit
      invariant 2 <= p <= TrialLimit
      invariant forall k :: 2 <= k < p ==> !Divides(k, n)
    {
      if n % p == 0 {
        assert Divides(p, n);
        DividesQuotient(p, n);
        if n > 0 && !IsPrime(n) {
          DivisorBound(p, n);
        }
        return Ok((p, n / p));
      }
      p := p + 1;
    }
    assert !Divides(2, n);
    r := PollardRho(n, fuel);
  }

  /** Rho's outcome is determined by n and the fuel. */
  lemma {:induction false} RhoOutcomeUnique(n: nat, fuel: nat, r1: Result<(nat, nat)>, r2: Result<(nat, nat)>)
    requires RhoOutcome(n, fuel, r1) && RhoOutcome(n, fuel, r2)
    ensures r1 == r2
  {
    if n % 2 == 1 && !(forall j :: 1 <= j <= fuel ==> RhoGcd(n, j) == 1) {
      var i1 :| 1 <= i1 <= fuel && RhoGcd(n, i1) != 1 && (forall j :: 1 <= j < i1 ==> RhoGcd(n, j) == 1)
                && r1 == RhoResult(n, RhoGcd(n, i1));
      var i2 :| 1 <= i2 <= fuel && RhoGcd(n, i2) != 1 && (forall j :: 1 <= j < i2 ==> RhoGcd(n, j) == 1)
                && r2 == RhoResult(n, RhoGcd(n, i2));
      assert i1 == i2;
    }
  }

  /** The outcome of `factor_semiprime` is determined by n and rho's bound. */
  lemma {:induction false} FactorOutcomeUnique(n: nat, fuel: nat, r1: Result<(nat, nat)>, r2: Result<(nat, nat)>)
    requires FactorOutcome(n, fuel, r1) && FactorOutcome(n, fuel, r2)
    ensures r1 == r2
  {
    if exists p :: 2 <= p < TrialLimit && Divides(p, n) {
      var p1 :| 2 <= p1 < TrialLimit && Divides(p1, n) && (forall k :: 2 <= k < p1 ==> !Divides(k, n))
                && r1 == TrialResult(n, p1);
      var p2 :| 2 <= p2 < TrialLimit && Divides(p2, n) && (forall k :: 2 <= k < p2 ==> !Divides(k, n))
                && r2 == TrialResult(n, p2);
      LeastDivisorUnique(n, p1, p2);
    } else {
      RhoOutcomeUnique(n, fuel, r1, r2);
    }
  }

  /** n has only one least divisor from 2 up. */
  lemma {:induction false} LeastDivisorUnique(n: nat, p1: nat, p2: nat)
    requires 2 <= p1 && Divides(p1, n) && forall k :: 2 <= k < p1 ==> !Divides(k, n)
    requires 2 <= p2 && Divides(p2, n) && forall k :: 2 <= k < p2 ==> !Divides(k, n)
    ensures p1 == p2
  {
  }

  /** What `factor_semiprime` guarantees about a pair it returns for n. */
  ghost predicate FactorPair(n: nat, p: nat, q: nat)
  {
    p >= 2 && p * q == n && (n > 0 && !IsPrime(n) ==> p < n)
  }

  /** Every Ok outcome of `factor_semiprime` is a factor pair: p >= 2, p * q == n, and p < n when n is
      composite. */
  lemma {:induction false} FactorOutcomeIsPair(n: nat, fuel: nat, r: Result<(nat, nat)>)
    requires FactorOutcome(n, fuel, r) && r.Ok?
    ensures FactorPair(n, r.value.0, r.value.1)
  {
    if exists p :: 2 <= p < TrialLimit && Divides(p, n) {
      var p :| 2 <= p < TrialLimit && Divides(p, n) && (forall k :: 2 <= k < p ==> !Divides(k, n))
               && r == TrialResult(n, p);
      DividesQuotient(p, n);
      if n > 0 && !IsPrime(n) {
        DivisorBound(p, n);
        if p == n {
          assert IsPrime(n);
        }
      }
    } else {
      RhoOutcomeFactors(n, fuel, r);
    }
  }

  /** A product of two primes is not prime. */
  lemma {:induction false} SemiprimeNotPrime(p: nat, q: nat)
    requires IsPrime(p) && IsPrime(q)
    ensures !IsPrime(p * q)
  {
    DividesMultiple(p, q);
    assert p < p * q by {
      MulAtLeast(q, p);
      assert p * q == p + (q - 1) * p;
      MulAtLeast(q - 1, p);
    }
  }

  /** A product of two primes splits into two factors above 1 in only one way, up to order. */
  lemma {:induction false} SemiprimeSplitUnique(pp: nat, qq: nat, p: nat, q: nat)
    requires IsPrime(pp) && IsPrime(qq) && p * q == pp * qq && p >= 2 && q >= 2
    ensures (p == pp && q == qq) || (p == qq && q == pp)
  {
    DividesMultiple(pp, qq);
    EuclidLemma(pp, p, q);
    if Divides(pp, p) {
      CofactorOfPrime(pp, qq, p, q);
    } else {
      assert q * p == pp * qq;
      CofactorOfPrime(pp, qq, q, p);
    }
  }

  /** A factor pair of a product of two primes, with the first factor at least 2 and below the
      product (what `factor_semiprime` guarantees), is the two primes in some order. */
  lemma {:induction false} SemiprimeFactorsRecovered(pp: nat, qq: nat, p: nat, q: nat)
    requires IsPrime(pp) && IsPrime(qq) && 2 <= p < pp * qq && p * q == pp * qq
    ensures (p == pp && q == qq) || (p == qq && q == pp)
  {
    if q < 2 {
      assert false;
    }
    SemiprimeSplitUnique(pp, qq, p, q);
  }

  /** If the prime pp divides p in p * q == pp * qq, with qq prime and q >= 2, then p == pp and
      q == qq. */
  lemma {:induction false} CofactorOfPrime(pp: nat, qq: nat, p: nat, q: nat)
    requires IsPrime(pp) && IsPrime(qq) && p * q == pp * qq && q >= 2 && Divides(pp, p)
    ensures p == pp && q == qq
  {
    var m := p / pp;
    DividesQuotient(pp, p);
    assert pp * (m * q) == pp * qq;
    assert m * q == qq by {
      MulCancel(pp, m * q, qq);
    }
    DividesMultiple(q, m);
    assert Divides(q, qq) by {
      assert qq == q * m;
    }
    PrimeDivisor(qq, q);
    assert q == qq;
    assert m == 1 by {
      MulCancel(qq, m, 1);
    }
  }

  /** Multiplication by a positive number can be cancelled. */
  lemma {:induction false} MulCancel(c: nat, x: nat, y: nat)
    requires c > 0 && c * x == c * y
    ensures x == y
  {
  }
}
