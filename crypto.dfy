/** The location cipher of src/lib.rs (`bigint_to_aes_key`, `encrypt_location`,
    `decrypt_location`). SHA-256 and AES-256-GCM are not modelled bit by bit: they are the
    parameters of a `Suite`, and the properties the protocol relies on (the AEAD opens what it
    sealed, a different key does not open it, distinct inputs hash to distinct keys) are
    predicates on that suite that the lemmas take as explicit hypotheses. */
module Crypto {
  import opened Errors
  import opened Bytes
  import opened Octet

  /** The length of an AES-GCM nonce in bytes. */
  const NonceLength: nat := 12

  /** The primitives: a hash (SHA-256) from bytes to a key, and an AEAD whose `seal` takes key,
      nonce and plaintext and whose `open` takes key, nonce and ciphertext. `open` yields None
      when authentication fails or the plaintext is not valid UTF-8. */
  datatype Suite = Suite(
    hash: seq<byte> -> seq<byte>,
    seal: (seq<byte>, seq<byte>, string) -> seq<byte>,
    open: (seq<byte>, seq<byte>, seq<byte>) -> Option<string>)

  /** Opening what was sealed under the same key and nonce gives the plaintext back. */
  ghost predicate Inverts(c: Suite)
  {
    forall k, n, p :: c.open(k, n, c.seal(k, n, p)) == Some(p)
  }

  /** Opening under any other key fails (the ideal AEAD: forgeries are not modelled). */
  ghost predicate Authenticates(c: Suite)
  {
    forall k, k', n, p :: k != k' ==> c.open(k', n, c.seal(k, n, p)) == None
  }

  /** Distinct inputs hash to distinct keys (the ideal hash: collisions are not modelled). */
  ghost predicate HashInjective(c: Suite)
  {
    forall a, b :: a != b ==> c.hash(a) != c.hash(b)
  }

  /** `bigint_to_aes_key`: the hash of the minimal big-endian bytes of n. */
  function DeriveKey(c: Suite, n: nat): seq<byte>
  {
    c.hash(ToBytesBE(n))
  }

  /** Distinct numbers give distinct keys under an injective hash. */
  lemma {:induction false} DeriveKeyInjective(c: Suite, a: nat, b: nat)
    requires HashInjective(c) && a != b
    ensures DeriveKey(c, a) != DeriveKey(c, b)
  {
    FromToBytesBE(a);
    FromToBytesBE(b);
  }

  /** `encrypt_location` with the random nonce given: the hex of nonce followed by ciphertext. */
  function EncryptLocation(c: Suite, location: string, key: nat, nonce: seq<byte>): (s: string)
    requires |nonce| == NonceLength
    ensures IsHexString(s) && |s| >= 2 * NonceLength
  {
    HexEncode(nonce + c.seal(DeriveKey(c, key), nonce, location))
  }

  /** `decrypt_location`: None when the text is not hex, when it holds fewer bytes than a nonce, or
      when the AEAD rejects it; otherwise the plaintext. */
  function DecryptLocation(c: Suite, encrypted: string, key: nat): (r: Option<string>)
    ensures !IsHexString(encrypted) || |encrypted| < 2 * NonceLength ==> r == None
  {
    match HexDecode(encrypted)
    case None => None
    case Some(data) =>
      if |data| < NonceLength then None
      else c.open(DeriveKey(c, key), data[..NonceLength], data[NonceLength..])
  }

  /** Decrypting with the key that encrypted gives the location back. */
  lemma {:induction false} EncryptDecrypt(c: Suite, location: string, key: nat, nonce: seq<byte>)
    requires Inverts(c) && |nonce| == NonceLength
    ensures DecryptLocation(c, EncryptLocation(c, location, key, nonce), key) == Some(location)
  {
    var ct := c.seal(DeriveKey(c, key), nonce, location);
    HexRoundTrip(nonce + ct);
    assert (nonce + ct)[..NonceLength] == nonce && (nonce + ct)[NonceLength..] == ct;
  }

  /** Decrypting with any other key fails. */
  lemma {:induction false} WrongKeyFails(c: Suite, location: string, key: nat, other: nat, nonce: seq<byte>)
    requires Authenticates(c) && HashInjective(c) && |nonce| == NonceLength && key != other
    ensures DecryptLocation(c, EncryptLocation(c, location, key, nonce), other) == None
  {
    var ct := c.seal(DeriveKey(c, key), nonce, location);
    HexRoundTrip(nonce + ct);
    assert (nonce + ct)[..NonceLength] == nonce && (nonce + ct)[NonceLength..] == ct;
    DeriveKeyInjective(c, key, other);
  }
}
