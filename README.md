# Spyfall proof-of-work: a verified model

Spyfall is a party game in which every player but one (the spy) knows a secret location. This
program lets players prove they know the location without saying it. A challenger publishes a
*challenge*: one semiprime (a product of two random 48-bit primes) per location, hex-encoded,
plus an identifier. The semiprime that belongs to a location is found by sorting the list of
locations and taking the location's position modulo the number of semiprimes. A responder who
knows the location factors its semiprime. This is the proof of work. The responder then
encrypts the location with AES-256-GCM, under a key that is the SHA-256 hash of the smaller
factor. A verifier who knows the location factors the same semiprime, tries both factors as keys,
and accepts when the decrypted text is the location. The spy can only brute-force: factor every
location's semiprime and look for one whose key decrypts the response to that location.

This project models the number theory and the protocol decisions of `src/lib.rs`:

- `Arith` covers modular exponentiation, Euclid's gcd, divisibility, primality, Bezout and
  Euclid's lemma.
- `Fermat` proves Fermat's little theorem and that 1 has only the square roots ±1 modulo a prime.
- `Bytes` covers big-endian byte strings and the hex codec that carries semiprimes.
- `Sampling` covers the shaping of random bytes into odd candidates and into bases in a range.
- `MillerRabin` is the probable-prime test. It is proved never to reject a prime.
- `Factor` covers trial division and Pollard's rho, and the fact that a product of two primes
  splits only one way.
- `Ordering` covers string order, sorting and search.
- `Selection` maps a location to its semiprime.
- `Crypto` is the location cipher, over abstract primitives.
- `Protocol` covers challenge, respond and verify, the spy's acceptance test, and the end-to-end
  honest-exchange theorem.

Randomness is a parameter throughout. Each function or method takes the bytes or draws that the
random number generator would have produced. The list of locations, the random nonce, the
identifier of a challenge and the cryptographic primitives are parameters too. Pollard's rho
takes an iteration bound (`fuel`).

Four behaviours of the code differ from what the function names or the textbook algorithms
suggest; the model follows the code:

- `is_probably_prime` answers false for n ≤ 1, true for 2 and 3, and false for the other even
  numbers. Its bases come from `generate_random_range(2, n - 2)`, so they lie in [2, n - 2):
  n - 2 itself is never drawn.
- `generate_random_range` reduces the draw modulo the size of the range. Its retry test
  (`candidate < range`) therefore always holds, so there is no rejection sampling: the first draw
  decides (`Sampling.RandomRangeFirstDraw`).
- `handle_verify` tries the two keys in the order `factor_semiprime` returned them, not smaller
  first. The first key that decrypts decides; a wrong plaintext is not followed by a try with the
  other key.
- `generate_random_odd` yields exactly `bits` bits only when `bits` is a multiple of 8; otherwise
  it yields more. With the constant `PRIME_BITS = 48` the candidates have exactly 48 bits.

## Model

| member | source | states |
|---|---|---|
| Arith.ModExp | src/lib.rs:161-178 | for a positive modulus, the result is base^exp mod modulus, hence below the modulus (0 for modulus 1); the loop keeps result·b^e ≡ base^exp |
| Arith.Gcd | src/lib.rs:223-229 | the result divides both arguments, and it is 0 exactly when both are 0 |
| Arith.GcdGreatest | src/lib.rs:223-229 | every common divisor of a and b divides Gcd(a, b), so the result is the greatest common divisor |
| Arith.EuclidLemma | src/lib.rs:181-193 | a prime that divides a product divides one of its factors; this is what makes the factors of a semiprime unique |
| Fermat.FermatLittle | src/lib.rs:122-143 | a^(p-1) ≡ 1 modulo a prime p that does not divide a; this is the fact the Miller-Rabin rounds test |
| Fermat.SquareRootsOfOne | src/lib.rs:131-137 | modulo a prime, the only square roots of 1 are 1 and p - 1; this is why the squaring loop looks for n - 1 |
| Bytes.FromToBytesBE | src/lib.rs:368 | reading the minimal big-endian bytes of n gives n back |
| Bytes.FromBytesBEBound | src/lib.rs:97 | k bytes read big-endian give a value below 256^k |
| Bytes.HexDecode | src/lib.rs:337-338 | decoding succeeds exactly on strings of even length made of hex digits (either case), with one byte per two digits |
| Bytes.HexRoundTrip | src/lib.rs:368 | decoding the lower-case hex of a byte string gives the bytes back |
| Bytes.EncodeSemiprime | src/lib.rs:368 | the challenge form of a semiprime is a valid hex string of at least two digits |
| Bytes.DecodeSemiprime | src/lib.rs:337-340 | reading a semiprime back fails exactly on invalid hex |
| Bytes.SemiprimeRoundTrip | src/lib.rs:337-340 | a semiprime written into a challenge is read back unchanged |
| Sampling.ByteCount | src/lib.rs:88 | div_ceil(bits, 8) bytes hold the bits with less than one spare byte, and hold exactly `bits` bits only when bits is a multiple of 8 |
| Sampling.GenerateRandomOdd | src/lib.rs:87-98 | after the top bit of the first byte and the low bit of the last byte are set in place, the value is odd, lies in [2^(8k-1), 2^(8k)) for k bytes, has exactly 8k bits, and has `bits` bits exactly when bits % 8 == 0 (as for PRIME_BITS = 48, src/lib.rs:15) |
| Sampling.RandomRange | src/lib.rs:147-158 | one draw of div_ceil(bits(max - min), 8) bytes gives a value in [min, max) |
| Sampling.RandomRangeFirstDraw | src/lib.rs:147-158 | the retry test `candidate < range` holds for every draw, so the first draw is always returned |
| Sampling.RandomRangeCovers | src/lib.rs:147-158 | every value of [min, max) is produced by some draw of the right length |
| MillerRabin.OddPart | src/lib.rs:112-119 | a positive m is d·2^r with d odd, and r ≥ 1 when m is even |
| MillerRabin.SplitPowerOfTwo | src/lib.rs:112-119 | the halving loop ends with d odd and d·2^r == n - 1 |
| MillerRabin.RoundValueNext | src/lib.rs:131-132 | squaring x modulo n moves a round from a^(d·2^i) to a^(d·2^(i+1)) |
| MillerRabin.PrimeIsStrongProbablePrime | src/lib.rs:122-142 | a prime passes a round for every base it does not divide |
| MillerRabin.WitnessProvesComposite | src/lib.rs:138-140 | a base in (0, n) that fails a round proves n composite |
| MillerRabin.Witness | src/lib.rs:123 | a round's base lies in [2, n - 2) |
| MillerRabin.IsProbablyPrime | src/lib.rs:101-144 | false for n ≤ 1 and for even n ≥ 4, true for 2 and 3; for odd n ≥ 5 true exactly when every drawn base passes its round; a prime is never rejected, whatever the draws |
| Factor.RhoFailsWhenCycleCloses | src/lib.rs:206-216 | a step's gcd equals n exactly when tortoise and hare have met |
| Factor.RhoNeverEndsForOne | src/lib.rs:206-210 | for n = 1 every gcd is 1, so the loop never ends |
| Factor.PollardRho | src/lib.rs:196-220 | the result is `RhoOutcome`: even n gives (2, n/2); for odd n the loop stops at the first step whose gcd is not 1; the error is returned exactly when that gcd is n, and otherwise 1 < p < n, p divides n and p·q == n; running out of fuel means every gcd so far was 1 (always so for n = 1) |
| Factor.RhoOutcomeFactors | src/lib.rs:211-219 | rho's Ok pair is a proper factorisation of n (1 < p < n, p·q == n), and its errors are only the failure and the iteration bound, for odd n |
| Factor.RhoOutcomeSteps | src/lib.rs:206-216 | a result other than the iteration bound comes from the first step whose gcd is not 1; the iteration bound means every step had gcd 1 |
| Factor.RhoOutcomeForOne | src/lib.rs:206-210 | for n = 1 the only outcome is the iteration bound: the source's loop never ends |
| Factor.RhoOutcomeUnique | src/lib.rs:196-220 | rho's outcome is determined by n and the iteration bound |
| Factor.FactorSemiprime | src/lib.rs:181-193 | the result is `FactorOutcome`: the least divisor p in [2, 10^6) with n / p when there is one, otherwise exactly what `pollard_rho` returns; every Ok pair multiplies back to n with p ≥ 2 dividing n, and p < n when n is composite |
| Factor.FactorOutcomeUnique | src/lib.rs:181-193 | the outcome of `factor_semiprime` is determined by n and rho's iteration bound, so the pair (and its order) is fixed |
| Factor.FactorOutcomeIsPair | src/lib.rs:181-220 | every Ok outcome is a factor pair: p ≥ 2, p·q == n, and p < n when n is composite |
| Factor.SemiprimeNotPrime | src/lib.rs:364-366 | the product of two primes is composite |
| Factor.SemiprimeFactorsRecovered | src/lib.rs:181-193 | any pair p·q == pp·qq with 2 ≤ p < pp·qq, for primes pp and qq, is (pp, qq) or (qq, pp) |
| Ordering.LexLeTotal | src/lib.rs:328 | any two strings are ordered one way or the other |
| Ordering.LexLeAntisymmetric | src/lib.rs:328 | strings ordered both ways are equal |
| Ordering.LexLeTransitive | src/lib.rs:328 | the string order is transitive |
| Ordering.Insert | src/lib.rs:328 | insertion adds exactly the one element |
| Ordering.InsertSorted | src/lib.rs:328 | insertion into a sorted list keeps it sorted |
| Ordering.Sort | src/lib.rs:327-328 | sorting a copy permutes the list and keeps its length |
| Ordering.SortSorted | src/lib.rs:328 | the sorted copy is in order |
| Ordering.SortedUnique | src/lib.rs:328 | two sorted lists with the same elements are equal |
| Ordering.SortPermutationInvariant | src/lib.rs:327-328 | two orderings of the same locations sort to the same list |
| Ordering.Position | src/lib.rs:330-333 | the position exists exactly when the location is listed, it holds the location, and no earlier index does |
| Selection.SemiprimeSlot | src/lib.rs:330-335 | the location is not found exactly when it is absent; with no semiprimes there is no slot; otherwise the slot is the sorted position modulo the count, hence in bounds |
| Selection.SelectSemiprime | src/lib.rs:325-341 | the location is not found exactly when it is absent, and there is no slot exactly when the challenge is empty; otherwise the string at the location's slot decides: invalid hex exactly when it is not hex, and an Ok value is its decoding |
| Selection.SelectionIgnoresListOrder | src/lib.rs:326-335 | any reordering of the location list selects the same semiprime |
| Selection.SelectionRecoversEncoded | src/lib.rs:335-340 | on a challenge that carries the hex of some numbers, a listed location selects the number at its slot |
| Selection.SlotIsPosition | src/lib.rs:330-335 | a listed location's slot is its sorted position modulo the count |
| Selection.DistinctLocationsDistinctSlots | src/lib.rs:335 | with one semiprime per location, different locations get different slots |
| Crypto.DeriveKeyInjective | src/lib.rs:232-236 | distinct numbers give distinct keys, given a collision-free hash |
| Crypto.EncryptLocation | src/lib.rs:289-301 | the result is the hex of nonce followed by ciphertext, so it is valid hex of at least 24 digits |
| Crypto.DecryptLocation | src/lib.rs:304-322 | text that is not hex, or holds fewer bytes than a nonce, does not decrypt |
| Crypto.EncryptDecrypt | src/lib.rs:289-322 | decrypting with the encrypting key gives the location back |
| Crypto.WrongKeyFails | src/lib.rs:304-322 | decrypting with any other key fails, given an authenticating cipher and a collision-free hash |
| Protocol.MakeChallenge | src/lib.rs:343-369 | an unknown location is rejected, and that is the only error; otherwise semiprime i is the hex of the i-th product of primes, one per location, with the given identifier |
| Protocol.SmallerFactor | src/lib.rs:420 | the key is the minimum of the two factors |
| Protocol.Respond | src/lib.rs:396-428 | an unknown location and selection errors come first; then the outcome of `factor_semiprime` on the selected semiprime decides: its error is returned, or the response encrypts the location under the smaller of its two factors and carries the challenge's identifier |
| Protocol.FirstDecryption | src/lib.rs:471-491 | the result is the plaintext of the first key that decrypts, with every earlier key failing; it is None only when no key decrypts |
| Protocol.Verify | src/lib.rs:441-497 | an identifier mismatch is an error exactly when the identifiers differ, before anything else; then unknown location and selection errors; then the outcome of `factor_semiprime` decides: its error is returned, or the verdict is whether the first successful decryption with its p then its q is the location (reject when neither key decrypts) |
| Protocol.TryKeys | src/lib.rs:471-496 | the key loop returns whether the plaintext of the first key that decrypts is the location, false when none decrypts |
| Protocol.VerifyAcceptImpliesBruteAccepts | src/lib.rs:566-580 | whatever the verifier accepts, the spy's test accepts too |
| Protocol.BruteContinuesPastWrongPlaintext | src/lib.rs:566-580 | when the first key gives another plaintext and the second gives the location, the spy accepts and the verifier rejects |
| Protocol.HonestResponseAccepted | src/lib.rs:420-491 | if responder and verifier each factor the same product of two primes, in either order, the response encrypted under the responder's smaller factor is accepted by the verifier |
| Protocol.HonestOutcomesAccepted | src/lib.rs:420-491 | when the responder's and the verifier's factoring of a product of two primes both succeed, with any iteration bounds, the responder's response is accepted with the verifier's keys |
| Protocol.WrongLocationRejected | src/lib.rs:471-496 | a response that encrypts another location is rejected, whatever keys are tried |
| Protocol.HonestExchangeAccepted | src/lib.rs:364-491 | on a challenge built from pairs of primes, a listed location selects its own product, and the honest response for it is accepted |
| Protocol.Products | src/lib.rs:366 | product i is the product of the i-th pair of primes |
| Selection.EncodeAll | src/lib.rs:368 | string i is the hex encoding of number i |

## Left out

- AES-256-GCM and SHA-256 (src/lib.rs:232-236, 289-322) are not modelled. They are the three
  functions of `Crypto.Suite`: hash, seal and open. The lemmas that need them take three
  explicit, ideal properties as hypotheses: open inverts seal, open fails under another key, and the hash is
  injective. Real AES-GCM and SHA-256 have these properties only up to negligible probability.
- The UTF-8 check on a decrypted plaintext is part of the abstract `open`, which yields None on
  invalid UTF-8. Locations are strings of code points.
- `Crypto.EncryptLocation`: the failure branch of `encrypt_location` is not modelled. AES-GCM
  fails only on plaintexts far longer than any location.
- The JSON and base64 framing of challenges and responses (`encode_*`, `decode_*`,
  src/lib.rs:239-286) is not modelled. The handlers take and return the decoded records.
- `load_locations` (src/lib.rs:62-73) and the default list are not modelled. Reading the file is
  I/O, so the list is a parameter.
- Randomness (`thread_rng`, `OsRng`) is not modelled. Random bytes, base draws, nonces and primes
  are parameters.
- The `generate_prime` retry loop (src/lib.rs:76-84) is not modelled, because it is unbounded over
  random input. Its two parts, `GenerateRandomOdd` and `IsProbablyPrime`, are modelled.
- `Sampling.RandomRange`: it models one draw. The source's retry loop never repeats, as
  `RandomRangeFirstDraw` shows, so nothing is lost.
- The challenge identifier is not modelled. It is a SHA-256 digest of the location and the wall
  clock (src/lib.rs:371-378), so `MakeChallenge` takes it as a parameter.
- All printing and timing are left out. So is the command-line dispatch in src/main.rs.
- The outcome of `handle_verify` is only printed, and the function returns `Ok(())` either way.
  `Protocol.Verify` returns that verdict as `Ok(true)` or `Ok(false)`.
- `handle_brute` (src/lib.rs:499-601) is modelled only as its per-location acceptance test,
  `Protocol.BruteAccepts`. Its rayon parallelism and its relaxed cancellation flag are
  concurrency, and the search order across threads is nondeterministic.
- `Factor.PollardRho`: it takes an iteration bound. `IterationLimit` stands for the source's loop
  running forever, which happens for n = 1. It is also returned when the bound is smaller than the
  number of steps a run of the source would take to finish; the model then does not say what the
  source returns.
- `Selection.SemiprimeSlot`: a challenge with no semiprimes makes the source panic on a remainder
  by zero. The model returns the explicit error `NoSemiprimes` instead.
- `Arith.ModExp`: a zero modulus makes the source panic. The model requires a positive modulus
  instead; every caller passes n ≥ 5.
- `Sampling.GenerateRandomOdd` requires bits > 0. For 0 the source panics indexing `data[0]` of
  an empty buffer (src/lib.rs:93); its one caller passes `PRIME_BITS = 48`.
- `Sampling.RandomRange` requires min < max, where the source panics. Its one caller passes
  (2, n - 2) with n ≥ 5.
- Integer widths: `BigUint` values are unbounded naturals. The loop counter `r` and the `u64`
  trial divisors never come near their limits, so no wrap-around is modelled.
- The unit tests at src/lib.rs:633-649 call functions that do not exist in the crate. The
  integration tests assert nothing about behaviour.
