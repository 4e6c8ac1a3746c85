/** The Miller-Rabin probable-prime test (src/lib.rs `is_probably_prime`). The random witnesses are
    parameters: each round consumes one draw of random bytes, which `generate_random_range` turns
    into a base in [2, n - 2). */
module MillerRabin {
  import opened Arith
  import opened Fermat
  import opened Octet
  import opened Sampling

  /** m split as d * 2^r with d odd (for m > 0); (0, 0) for m == 0. */
  function OddPart(m: nat): (dr: (nat, nat))
    ensures m > 0 ==> dr.0 % 2 == 1 && dr.0 * Pow(2, dr.1) == m
    ensures m > 0 && m % 2 == 0 ==> dr.1 >= 1
  {
    if m > 0 && m % 2 == 0 then
      var (d, r) := OddPart(m / 2);
      assert d * Pow(2, r + 1) == 2 * (d * Pow(2, r));
      (d, r + 1)
    else (m, 0)
  }

  /** The decomposition loop of `is_probably_prime`: halve d while it is even, counting halvings
      in r. */
  method SplitPowerOfTwo(m: nat) returns (d: nat, r: nat)
    requires m > 0
    ensures (d, r) == OddPart(m)
    ensures d % 2 == 1 && d * Pow(2, r) == m
  {
    d, r := m, 0;
    while d % 2 == 0
      invariant d > 0
      invariant OddPart(m) == (OddPart(d).0, OddPart(d).1 + r)
      decreases d
    {
      d := d / 2;
      r := r + 1;
    }
  }

  /** a^(d * 2^i) modulo n: the value of x after the i-th squaring of a round. */
  function RoundValue(n: nat, a: nat, d: nat, i: nat): nat
    requires n > 0
  {
    Pow(a, d * Pow(2, i)) % n
  }

  /** One squaring moves a round from step i to step i + 1. */
  lemma {:induction false} RoundValueNext(n: nat, a: nat, d: nat, i: nat)
    requires n > 0
    ensures RoundValue(n, a, d, i + 1)
         == (RoundValue(n, a, d, i) * RoundValue(n, a, d, i)) % n
  {
    var e := d * Pow(2, i);
    assert d * Pow(2, i + 1) == e + e;
    PowAdd(a, e, e);
    ModMod(Pow(a, e), n);
    MulModCongruence(Pow(a, e) % n, Pow(a, e) % n, Pow(a, e), Pow(a, e), n);
  }

  /** n is a strong probable prime to base a: with n - 1 == d * 2^r, d odd, either a^d == 1 or
      a^(d * 2^i) == n - 1 for some i < r, all modulo n. A base for which this fails is a witness
      that n is composite. */
  ghost predicate StrongProbablePrime(n: nat, a: nat)
    requires n > 1
  {
    var (d, r) := OddPart(n - 1);
    RoundValue(n, a, d, 0) == 1 || exists i :: 0 <= i < r && RoundValue(n, a, d, i) == n - 1
  }

  /** Modulo a prime, a value that is not 1 and not -1 squares to something other than 1; so if no
      step before i hit -1 and the start was not 1, step i is not 1. */
  lemma {:induction false} NoEarlyOne(p: nat, a: nat, d: nat, i: nat)
    requires IsPrime(p) && RoundValue(p, a, d, 0) != 1
    requires forall j :: 0 <= j < i ==> RoundValue(p, a, d, j) != p - 1
    ensures RoundValue(p, a, d, i) != 1
  {
    if i > 0 {
      NoEarlyOne(p, a, d, i - 1);
      var x := RoundValue(p, a, d, i - 1);
      RoundValueNext(p, a, d, i - 1);
      if (x * x) % p == 1 {
        SquareRootsOfOne(p, x);
        assert false;
      }
    }
  }

  /** A prime is a strong probable prime to every base it does not divide: no witness exists. */
  lemma {:induction false} PrimeIsStrongProbablePrime(p: nat, a: nat)
    requires IsPrime(p) && !Divides(p, a)
    ensures StrongProbablePrime(p, a)
  {
    var (d, r) := OddPart(p - 1);
    assert d * Pow(2, r) == p - 1;
    if !StrongProbablePrime(p, a) {
      NoEarlyOne(p, a, d, r);
      FermatLittle(p, a);
      assert false;
    }
  }

  /** A base that n is not a strong probable prime to proves n composite. */
  lemma {:induction false} WitnessProvesComposite(n: nat, a: nat)
    requires 0 < a < n && !StrongProbablePrime(n, a)
    ensures !IsPrime(n)
  {
    if IsPrime(n) {
      DivModUnique(a, n, 0, a);
      PrimeIsStrongProbablePrime(n, a);
    }
  }

  /** The number of random bytes one base draw takes for candidate n, as `generate_random_range`
      computes it for the range [2, n - 2). */
  function WitnessDrawLength(n: nat): nat
  {
    if n >= 5 then ByteCount(BitLength(n - 4)) else 0
  }

  /** The base a round of the test uses, from its random draw. */
  function Witness(n: nat, draw: seq<byte>): (a: nat)
    requires n >= 5 && |draw| == WitnessDrawLength(n)
    ensures 2 <= a < n - 2
  {
    RandomRange(2, n - 2, draw)
  }

  /** `is_probably_prime(n, k)` with the k base draws given. The result is false for n <= 1, true
      for 2 and 3, false for the other even numbers, and for odd n >= 5 true exactly when n is a
      strong probable prime to every base drawn. A prime is therefore never rejected. */
  method IsProbablyPrime(n: nat, draws: seq<seq<byte>>) returns (probablyPrime: bool)
    requires forall k :: 0 <= k < |draws| ==> |draws[k]| == WitnessDrawLength(n)
    ensures n <= 1 ==> !probablyPrime
    ensures 2 <= n <= 3 ==> probablyPrime
    ensures n >= 4 && n % 2 == 0 ==> !probablyPrime
    ensures n >= 5 && n % 2 == 1 ==>
              (probablyPrime <==>
                 forall k :: 0 <= k < |draws| ==> StrongProbablePrime(n, Witness(n, draws[k])))
    ensures IsPrime(n) ==> probablyPrime
  {
    if n <= 1 {
      return false;
    }
    if n <= 3 {
      return true;
    }
    if n % 2 == 0 {
      assert Divides(2, n);
      return false;
    }
    var d, r := SplitPowerOfTwo(n - 1);
    assert r >= 1;
    var k := 0;
    while k < |draws|
      invariant 0 <= k <= |draws|
      invariant forall j :: 0 <= j < k ==> StrongProbablePrime(n, Witness(n, draws[j]))
    {
      var a := Witness(n, draws[k]);
      var x := ModExp(a, d, n);
      assert x == RoundValue(n, a, d, 0);
      if x == 1 || x == n - 1 {
        k := k + 1;
        continue;
      }
      var composite := true;
      var i := 0;
      while i < r - 1
        invariant 0 <= i <= r - 1
        invariant composite
        invariant x == RoundValue(n, a, d, i)
        invariant forall j :: 0 <= j <= i ==> RoundValue(n, a, d, j) != n - 1
      {
        RoundValueNext(n, a, d, i);
        PowTwo(x);
        x := ModExp(x, 2, n);
        if x == n - 1 {
          composite := false;
          break;
        }
        i := i + 1;
      }
      if composite {
        assert !StrongProbablePrime(n, a);
        WitnessProvesComposite(n, a);
        return false;
      }
      assert StrongProbablePrime(n, a);
      k := k + 1;
    }
    return true;
  }
}
