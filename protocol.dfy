/** The three steps of the game (src/lib.rs `handle_challenge`, `handle_respond`,
    `handle_verify`) and the spy's acceptance test from `handle_brute`. The locations list, the
    random primes, the random nonce, the cipher suite and the factoring iteration bound are
    parameters; decoding, printing and timing are not modelled. */
module Protocol {
  import opened Arith
  import opened Errors
  import opened Bytes
  import opened Octet
  import opened Factor
  import opened Crypto
  import opened Selection

  /** A challenge: one hex semiprime per location, and an identifier. */
  datatype Challenge = Challenge(semiprimes: seq<string>, id: string)

  /** A response: the hex of nonce and ciphertext, and the identifier of the challenge answered. */
  datatype Response = Response(encryptedLocation: string, challengeId: string)

  /** `handle_challenge` with the primes and the identifier given: LocationNotFound for an unknown
      location; otherwise semiprime i is the hex of the product of the i-th pair of primes. */
  method MakeChallenge(locations: seq<string>, location: string, primes: seq<(nat, nat)>, id: string)
    returns (r: Result<Challenge>)
    requires |primes| == |locations|
    ensures location !in locations <==> r == Err(LocationNotFound)
    ensures r.Err? ==> r == Err(LocationNotFound)
    ensures r.Ok? ==> r.value.id == id && |r.value.semiprimes| == |locations|
    ensures r.Ok? ==> forall i :: 0 <= i < |primes| ==>
                        r.value.semiprimes[i] == EncodeSemiprime(primes[i].0 * primes[i].1)
  {
    if location !in locations {
      return Err(LocationNotFound);
    }
    var semiprimes: seq<string> := [];
    var i := 0;
    while i < |locations|
      invariant 0 <= i <= |locations| && |semiprimes| == i
      invariant forall j :: 0 <= j < i ==> semiprimes[j] == EncodeSemiprime(primes[j].0 * primes[j].1)
    {
      var (p, q) := primes[i];
      semiprimes := semiprimes + [EncodeSemiprime(p * q)];
      i := i + 1;
    }
    return Ok(Challenge(semiprimes, id));
  }

  /** The smaller of the two factors, the one `handle_respond` encrypts with (q on a tie). */
  function SmallerFactor(p: nat, q: nat): (s: nat)
    ensures s <= p && s <= q && (s == p || s == q)
  {
    if p < q then p else q
  }

  /** `handle_respond` with the locations, the nonce and rho's bound given: LocationNotFound for an
      unknown location, then the selection's errors, then the factoring errors; on success the
      location encrypted under the smaller factor of the selected semiprime, tagged with the
      challenge's identifier. */
  method Respond(c: Suite, locations: seq<string>, challenge: Challenge, location: string,
                 nonce: seq<byte>, fuel: nat) returns (r: Result<Response>)
    requires |nonce| == NonceLength
    ensures location !in locations ==> r == Err(LocationNotFound)
    ensures SelectSemiprime(locations, challenge.semiprimes, location).Err? ==>
              r == Err(SelectSemiprime(locations, challenge.semiprimes, location).error)
    ensures r.Ok? ==>
              var n := SelectSemiprime(locations, challenge.semiprimes, location);
              n.Ok? && exists p, q :: FactorPair(n.value, p, q)
                         && r.value == Response(EncryptLocation(c, location, SmallerFactor(p, q), nonce), challenge.id)
    ensures r.Err? ==> r.error in {LocationNotFound, NoSemiprimes, InvalidHex, FactorizationFailed, IterationLimit}
    ensures SelectSemiprime(locations, challenge.semiprimes, location).Ok? ==>
              exists f :: FactorOutcome(SelectSemiprime(locations, challenge.semiprimes, location).value, fuel, f)
                          && (f.Err? ==> r == Err(f.error))
                          && (f.Ok? ==> r == Ok(Response(EncryptLocation(c, location, SmallerFactor(f.value.0, f.value.1), nonce),
                                                         challenge.id)))
  {
    if location !in locations {
      return Err(LocationNotFound);
    }
    var selected := SelectSemiprime(locations, challenge.semiprimes, location);
    if selected.Err? {
      return Err(selected.error);
    }
    var n := selected.value;
    var factors := FactorSemiprime(n, fuel);
    if factors.Err? {
      return Err(factors.error);
    }
    var (p, q) := factors.value;
    assert FactorPair(n, p, q);
    var encrypted := EncryptLocation(c, location, SmallerFactor(p, q), nonce);
    return Ok(Response(encrypted, challenge.id));
  }

  /** The plaintext of the first key that decrypts, if any: `handle_verify` stops at the first key
      whose decryption succeeds and judges by that plaintext alone. */
  function FirstDecryption(c: Suite, encrypted: string, keys: seq<nat>): (r: Option<string>)
    ensures r.Some? ==> exists i :: 0 <= i < |keys| && DecryptLocation(c, encrypted, keys[i]) == r
                                    && forall j :: 0 <= j < i ==> DecryptLocation(c, encrypted, keys[j]).None?
    ensures r.None? ==> forall i :: 0 <= i < |keys| ==> DecryptLocation(c, encrypted, keys[i]).None?
  {
    if keys == [] then None
    else match DecryptLocation(c, encrypted, keys[0])
      case Some(plain) => Some(plain)
      case None =>
        var rest := FirstDecryption(c, encrypted, keys[1..]);
        if rest.Some? then
          var i :| 0 <= i < |keys[1..]| && DecryptLocation(c, encrypted, keys[1..][i]) == rest
                   && forall j :: 0 <= j < i ==> DecryptLocation(c, encrypted, keys[1..][j]).None?;
          assert DecryptLocation(c, encrypted, keys[i + 1]) == rest;
          rest
        else
          rest
  }

  /** `handle_verify` with the locations and rho's bound given. A mismatched identifier is
      rejected before anything else; then an unknown location, the selection's errors and the
      factoring errors. Otherwise the keys p then q are tried: the verdict is whether the first
      plaintext obtained is the location, and false when neither key decrypts. */
  method Verify(c: Suite, locations: seq<string>, challenge: Challenge, response: Response,
                location: string, fuel: nat) returns (r: Result<bool>)
    ensures challenge.id != response.challengeId <==> r == Err(ChallengeIdMismatch)
    ensures challenge.id == response.challengeId && location !in locations ==> r == Err(LocationNotFound)
    ensures challenge.id == response.challengeId
            && SelectSemiprime(locations, challenge.semiprimes, location).Err? ==>
              r == Err(SelectSemiprime(locations, challenge.semiprimes, location).error)
    ensures r.Ok? ==>
              var n := SelectSemiprime(locations, challenge.semiprimes, location);
              n.Ok? && exists p, q :: FactorPair(n.value, p, q)
                         && r.value == (FirstDecryption(c, response.encryptedLocation, [p, q]) == Some(location))
    ensures r.Err? ==> r.error in {ChallengeIdMismatch, LocationNotFound, NoSemiprimes, InvalidHex,
                                   FactorizationFailed, IterationLimit}
    ensures challenge.id == response.challengeId
            && SelectSemiprime(locations, challenge.semiprimes, location).Ok? ==>
              exists f :: FactorOutcome(SelectSemiprime(locations, challenge.semiprimes, location).value, fuel, f)
                          && (f.Err? ==> r == Err(f.error))
                          && (f.Ok? ==> r == Ok(FirstDecryption(c, response.encryptedLocation, [f.value.0, f.value.1])
                                                == Some(location)))
  {
    if challenge.id != response.challengeId {
      return Err(ChallengeIdMismatch);
    }
    if location !in locations {
      return Err(LocationNotFound);
    }
    var selected := SelectSemiprime(locations, challenge.semiprimes, location);
    if selected.Err? {
      return Err(selected.error);
    }
    var n := selected.value;
    var factors := FactorSemiprime(n, fuel);
    if factors.Err? {
      return Err(factors.error);
    }
    var (p, q) := factors.value;
    assert FactorPair(n, p, q);
    var verdict := TryKeys(c, response.encryptedLocation, [p, q], location);
    return Ok(verdict);
  }

  /** The key loop of `handle_verify`: try the keys in order, and judge by the plaintext of the
      first one that decrypts; false when none does. */
  method TryKeys(c: Suite, encrypted: string, keys: seq<nat>, location: string) returns (verdict: bool)
    ensures verdict == (FirstDecryption(c, encrypted, keys) == Some(location))
  {
    var k := 0;
    while k < |keys|
      invariant 0 <= k <= |keys|
      invariant FirstDecryption(c, encrypted, keys) == FirstDecryption(c, encrypted, keys[k..])
    {
      assert keys[k..][1..] == keys[k + 1..];
      match DecryptLocation(c, encrypted, keys[k]) {
        case Some(decrypted) =>
          return decrypted == location;
        case None =>
          k := k + 1;
      }
    }
    return false;
  }

  /** The spy's test for one location in `handle_brute`: some key decrypts to the location. Unlike
      `handle_verify`, a key whose plaintext is another location does not end the search. */
  predicate BruteAccepts(c: Suite, encrypted: string, keys: seq<nat>, location: string)
  {
    exists i :: 0 <= i < |keys| && DecryptLocation(c, encrypted, keys[i]) == Some(location)
  }

  /** Whatever the verifier accepts, the spy's test accepts too. */
  lemma {:induction false} VerifyAcceptImpliesBruteAccepts(c: Suite, encrypted: string, keys: seq<nat>, location: string)
    requires FirstDecryption(c, encrypted, keys) == Some(location)
    ensures BruteAccepts(c, encrypted, keys, location)
  {
    var i :| 0 <= i < |keys| && DecryptLocation(c, encrypted, keys[i]) == Some(location)
             && forall j :: 0 <= j < i ==> DecryptLocation(c, encrypted, keys[j]).None?;
  }

  /** The two tests differ only when a key decrypts to another location: if the first key yields
      some other plaintext and the second yields the location, the spy accepts and the verifier
      rejects. */
  lemma {:induction false} BruteContinuesPastWrongPlaintext(c: Suite, encrypted: string, p: nat, q: nat,
                                                           other: string, location: string)
    requires other != location
    requires DecryptLocation(c, encrypted, p) == Some(other)
    requires DecryptLocation(c, encrypted, q) == Some(location)
    ensures BruteAccepts(c, encrypted, [p, q], location)
    ensures FirstDecryption(c, encrypted, [p, q]) != Some(location)
  {
    assert [p, q][1] == q;
  }

  /** An honest round: the responder and the verifier each factor the same product of two primes
      (possibly getting the factors in different orders); the response, encrypted under the
      responder's smaller factor, is accepted by the verifier. */
  lemma {:induction false} HonestResponseAccepted(c: Suite, pp: nat, qq: nat, p1: nat, q1: nat, p2: nat, q2: nat,
                                                 location: string, nonce: seq<byte>)
    requires Inverts(c) && Authenticates(c) && HashInjective(c) && |nonce| == NonceLength
    requires IsPrime(pp) && IsPrime(qq)
    requires FactorPair(pp * qq, p1, q1) && FactorPair(pp * qq, p2, q2)
    ensures FirstDecryption(c, EncryptLocation(c, location, SmallerFactor(p1, q1), nonce), [p2, q2])
         == Some(location)
  {
    SemiprimeNotPrime(pp, qq);
    assert pp * qq > 0 by {
      MulAtLeast(qq, pp);
    }
    SemiprimeFactorsRecovered(pp, qq, p1, q1);
    SemiprimeFactorsRecovered(pp, qq, p2, q2);
    var key := SmallerFactor(p1, q1);
    var encrypted := EncryptLocation(c, location, key, nonce);
    if p2 == key {
      EncryptDecrypt(c, location, key, nonce);
    } else {
      WrongKeyFails(c, location, key, p2, nonce);
      assert q2 == key;
      EncryptDecrypt(c, location, key, nonce);
      assert [p2, q2][1..] == [q2];
    }
  }

  /** The honest round in the terms of Respond and Verify: when both sides' factoring of a product
      of two primes succeeds (with any iteration bounds), the response built from the responder's
      outcome is accepted with the verifier's keys. */
  lemma {:induction false} HonestOutcomesAccepted(c: Suite, pp: nat, qq: nat, n: nat, fuel1: nat, f1: Result<(nat, nat)>,
                                                 fuel2: nat, f2: Result<(nat, nat)>, location: string,
                                                 nonce: seq<byte>)
    requires Inverts(c) && Authenticates(c) && HashInjective(c) && |nonce| == NonceLength
    requires IsPrime(pp) && IsPrime(qq) && n == pp * qq
    requires FactorOutcome(n, fuel1, f1) && f1.Ok? && FactorOutcome(n, fuel2, f2) && f2.Ok?
    ensures FirstDecryption(c, EncryptLocation(c, location, SmallerFactor(f1.value.0, f1.value.1), nonce),
                            [f2.value.0, f2.value.1])
         == Some(location)
  {
    var (p1, q1) := f1.value;
    var (p2, q2) := f2.value;
    assert FactorPair(n, p1, q1) by { FactorOutcomeIsPair(n, fuel1, f1); }
    assert FactorPair(n, p2, q2) by { FactorOutcomeIsPair(n, fuel2, f2); }
    HonestResponseAccepted(c, pp, qq, p1, q1, p2, q2, location, nonce);
  }

  /** A response that encrypts another location is rejected, whatever keys are tried. */
  lemma {:induction false} WrongLocationRejected(c: Suite, other: string, key: nat, nonce: seq<byte>,
                                                keys: seq<nat>, location: string)
    requires Inverts(c) && Authenticates(c) && HashInjective(c) && |nonce| == NonceLength
    requires other != location
    ensures FirstDecryption(c, EncryptLocation(c, other, key, nonce), keys) != Some(location)
  {
    var encrypted := EncryptLocation(c, other, key, nonce);
    if FirstDecryption(c, encrypted, keys) == Some(location) {
      var i :| 0 <= i < |keys| && DecryptLocation(c, encrypted, keys[i]) == Some(location);
      if keys[i] == key {
        EncryptDecrypt(c, other, key, nonce);
      } else {
        WrongKeyFails(c, other, key, keys[i], nonce);
      }
    }
  }

  /** The whole honest exchange: on a challenge built from pairs of primes, a listed location
      selects the product of its pair, and whatever factor pairs responder and verifier obtain for
      it, the verifier accepts the response. */
  lemma {:induction false} HonestExchangeAccepted(c: Suite, locations: seq<string>, primes: seq<(nat, nat)>,
                                                 location: string, p1: nat, q1: nat, p2: nat, q2: nat,
                                                 nonce: seq<byte>)
    requires Inverts(c) && Authenticates(c) && HashInjective(c) && |nonce| == NonceLength
    requires location in locations && |primes| == |locations|
    requires forall i :: 0 <= i < |primes| ==> IsPrime(primes[i].0) && IsPrime(primes[i].1)
    requires var sel := SelectSemiprime(locations, EncodeAll(Products(primes)), location);
             sel.Ok? && FactorPair(sel.value, p1, q1) && FactorPair(sel.value, p2, q2)
    ensures FirstDecryption(c, EncryptLocation(c, location, SmallerFactor(p1, q1), nonce), [p2, q2])
         == Some(location)
  {
    var ns := Products(primes);
    SelectionRecoversEncoded(locations, ns, location);
    var i := SemiprimeSlot(locations, |ns|, location).value;
    HonestResponseAccepted(c, primes[i].0, primes[i].1, p1, q1, p2, q2, location, nonce);
  }

  /** The products of the pairs of primes, in order. */
  function Products(primes: seq<(nat, nat)>): (ns: seq<nat>)
    ensures |ns| == |primes|
    ensures forall i :: 0 <= i < |primes| ==> ns[i] == primes[i].0 * primes[i].1
  {
    if primes == [] then [] else [primes[0].0 * primes[0].1] + Products(primes[1..])
  }
}
