/** Big-endian byte strings and their hex transport: `BigUint::from_bytes_be`, `to_bytes_be`, and
    the `hex` crate's `encode` (lower-case) and `decode` (either case, even length). */
module Bytes {
  import opened Arith
  import opened Errors
  import opened Octet

  /** The value of a big-endian byte string (`BigUint::from_bytes_be`); 0 for no bytes. */
  function FromBytesBE(s: seq<byte>): nat
  {
    if s == [] then 0 else FromBytesBE(s[..|s| - 1]) * 256 + s[|s| - 1] as nat
  }

  /** The minimal big-endian bytes of n (`BigUint::to_bytes_be`), a single zero byte for 0. */
  function ToBytesBE(n: nat): (s: seq<byte>)
    ensures |s| >= 1 && (s[0] == 0 ==> n == 0)
  {
    if n < 256 then [n as byte] else ToBytesBE(n / 256) + [(n % 256) as byte]
  }

  /** The value of a one-byte string. */
  lemma {:induction false} FromBytesBESingle(b: byte)
    ensures FromBytesBE([b]) == b as nat
  {
    assert [b][..0] == [];
  }

  /** Reading the bytes of n back gives n. */
  lemma {:induction false} FromToBytesBE(n: nat)
    ensures FromBytesBE(ToBytesBE(n)) == n
  {
    var s := ToBytesBE(n);
    if n >= 256 {
      FromToBytesBE(n / 256);
      assert s[..|s| - 1] == ToBytesBE(n / 256);
      assert FromBytesBE(s) == (n / 256) * 256 + n % 256;
    } else {
      FromBytesBESingle(n as byte);
    }
  }

  /** Concatenation shifts the first part left by 8 bits per byte of the second. */
  lemma {:induction false} FromBytesBEAppend(a: seq<byte>, b: seq<byte>)
    ensures FromBytesBE(a + b) == FromBytesBE(a) * Pow(256, |b|) + FromBytesBE(b)
    decreases |b|
  {
    if b == [] {
      assert a + b == a;
    } else {
      var b' := b[..|b| - 1];
      assert (a + b)[..|a + b| - 1] == a + b';
      FromBytesBEAppend(a, b');
      var last: int := b[|b| - 1] as int;
      assert b[..|b| - 1] == b';
      AppendStep(FromBytesBE(a), Pow(256, |b'|), FromBytesBE(b'), last, FromBytesBE(a + b'),
                 FromBytesBE(a + b), FromBytesBE(b), Pow(256, |b|));
    }
  }

  /** The arithmetic step of FromBytesBEAppend: appending one byte to both sides. */
  lemma {:induction false} AppendStep(x: int, p: int, y: int, last: int, fab': int, fab: int,
                                      fb: int, q: int)
    requires fab' == x * p + y && fab == fab' * 256 + last && fb == y * 256 + last && q == 256 * p
    ensures fab == x * q + fb
  {
    assert (x * p + y) * 256 == x * (p * 256) + y * 256;
  }

  /** n bytes hold a value below 256^n. */
  lemma {:induction false} FromBytesBEBound(s: seq<byte>)
    ensures FromBytesBE(s) < Pow(256, |s|)
    decreases |s|
  {
    if s != [] {
      var s' := s[..|s| - 1];
      FromBytesBEBound(s');
      var v, p := FromBytesBE(s'), Pow(256, |s'|);
      assert v * 256 + 256 <= p * 256 by {
        assert v + 1 <= p;
      }
    }
  }

  /** The leading byte contributes its value times 256^(n-1). */
  lemma {:induction false} FromBytesBELeading(s: seq<byte>)
    requires s != []
    ensures FromBytesBE(s) >= s[0] as nat * Pow(256, |s| - 1)
  {
    FromBytesBEAppend([s[0]], s[1..]);
    assert [s[0]] + s[1..] == s;
    assert FromBytesBE([s[0]]) == s[0] as nat by {
      assert [s[0]][..0] == [];
    }
  }

  /** The parity of the value is the parity of the last byte. */
  lemma {:induction false} FromBytesBEParity(s: seq<byte>)
    requires s != []
    ensures FromBytesBE(s) % 2 == s[|s| - 1] as nat % 2
  {
    var v := FromBytesBE(s[..|s| - 1]);
    ModAddMultiple(s[|s| - 1] as nat, v * 128, 2);
    assert v * 256 + s[|s| - 1] as nat == s[|s| - 1] as nat + (v * 128) * 2;
  }

  /** Replacing byte i changes the value by the difference times its place value. */
  lemma {:induction false} FromBytesBEUpdate(s: seq<byte>, i: nat, b: byte)
    requires i < |s|
    ensures FromBytesBE(s[i := b]) + s[i] as nat * Pow(256, |s| - 1 - i)
         == FromBytesBE(s) + b as nat * Pow(256, |s| - 1 - i)
    decreases |s|
  {
    var t := s[i := b];
    var s', t' := s[..|s| - 1], t[..|t| - 1];
    if i < |s| - 1 {
      assert t' == s'[i := b];
      FromBytesBEUpdate(s', i, b);
      var e := |s'| - 1 - i;
      assert |s| - 1 - i == e + 1;
      ShiftUpdate(FromBytesBE(t'), FromBytesBE(s'), s[i] as nat, b as nat, s[|s| - 1] as nat,
                  Pow(256, e), FromBytesBE(t), FromBytesBE(s), Pow(256, e + 1));
    } else {
      assert t' == s';
      assert Pow(256, |s| - 1 - i) == 1;
    }
  }

  /** The arithmetic step of FromBytesBEUpdate: shifting both sides of an equation by one byte. */
  lemma {:induction false} ShiftUpdate(x: nat, y: nat, c: nat, d: nat, last: nat, p: nat,
                                       ft: nat, fs: nat, q: nat)
    requires x + c * p == y + d * p
    requires ft == x * 256 + last && fs == y * 256 + last && q == 256 * p
    ensures ft + c * q == fs + d * q
  {
    assert c * q == (c * p) * 256;
    assert d * q == (d * p) * 256;
  }

  // ---------------------------------------------------------------------------------------------
  // Hex

  predicate IsHexChar(c: char)
  {
    '0' <= c <= '9' || 'a' <= c <= 'f' || 'A' <= c <= 'F'
  }

  /** The value of a hex digit of either case. */
  function HexValue(c: char): (v: nat)
    requires IsHexChar(c)
    ensures v < 16
  {
    if '0' <= c <= '9' then c as nat - '0' as nat
    else if 'a' <= c <= 'f' then c as nat - 'a' as nat + 10
    else c as nat - 'A' as nat + 10
  }

  /** The lower-case hex digit of v. */
  function HexDigit(v: nat): (c: char)
    requires v < 16
    ensures IsHexChar(c) && HexValue(c) == v
  {
    if v < 10 then ('0' as nat + v) as char else ('a' as nat + v - 10) as char
  }

  /** `hex::encode`: two lower-case digits per byte, high nibble first. */
  function HexEncode(bytes: seq<byte>): (s: string)
    ensures |s| == 2 * |bytes|
    ensures forall i :: 0 <= i < |s| ==> IsHexChar(s[i])
  {
    if bytes == [] then []
    else [HexDigit(bytes[0] as nat / 16), HexDigit(bytes[0] as nat % 16)] + HexEncode(bytes[1..])
  }

  /** A string `hex::decode` accepts: even length and only hex digits. */
  predicate IsHexString(s: string)
  {
    |s| % 2 == 0 && forall i :: 0 <= i < |s| ==> IsHexChar(s[i])
  }

  /** `hex::decode`: None for an odd length or a character that is not a hex digit, otherwise one
      byte per pair of digits (HexDecodeAt says which). */
  function HexDecode(s: string): (r: Option<seq<byte>>)
    decreases |s|
    ensures r.Some? <==> IsHexString(s)
    ensures r.Some? ==> |s| == 2 * |r.value|
  {
    if |s| == 0 then Some([])
    else if |s| == 1 || !IsHexChar(s[0]) || !IsHexChar(s[1]) then None
    else
      match HexDecode(s[2..])
      case None =>
        assert !IsHexString(s[2..]);
        None
      case Some(rest) => Some([(16 * HexValue(s[0]) + HexValue(s[1])) as byte] + rest)
  }

  /** Byte i of a decoded string is the value of the digits at 2i and 2i+1, high nibble first. */
  lemma {:induction false} HexDecodeAt(s: string, i: nat)
    requires IsHexString(s) && i < |s| / 2
    ensures HexDecode(s).value[i] as nat == 16 * HexValue(s[2 * i]) + HexValue(s[2 * i + 1])
  {
    assert IsHexString(s[2..]);
    if i > 0 {
      HexDecodeAt(s[2..], i - 1);
      assert s[2..][2 * (i - 1)] == s[2 * i] && s[2..][2 * (i - 1) + 1] == s[2 * i + 1];
    }
  }

  /** Decoding what `hex::encode` produced gives the bytes back. */
  lemma {:induction false} HexRoundTrip(bytes: seq<byte>)
    ensures HexDecode(HexEncode(bytes)) == Some(bytes)
  {
    var s := HexEncode(bytes);
    var r := HexDecode(s);
    assert IsHexString(s);
    forall i | 0 <= i < |bytes|
      ensures r.value[i] == bytes[i]
    {
      HexEncodeAt(bytes, i);
      HexDecodeAt(s, i);
      var v := bytes[i] as nat;
      assert r.value[i] as nat == 16 * (v / 16) + v % 16 == v;
    }
    assert r.value == bytes;
  }

  /** The two digits of byte i sit at positions 2i and 2i+1. */
  lemma {:induction false} HexEncodeAt(bytes: seq<byte>, i: nat)
    requires i < |bytes|
    ensures HexEncode(bytes)[2 * i] == HexDigit(bytes[i] as nat / 16)
    ensures HexEncode(bytes)[2 * i + 1] == HexDigit(bytes[i] as nat % 16)
  {
    if i > 0 {
      var rest := HexEncode(bytes[1..]);
      assert HexEncode(bytes)[2..] == rest;
      HexEncodeAt(bytes[1..], i - 1);
      assert bytes[1..][i - 1] == bytes[i];
      assert 2 * i == 2 + 2 * (i - 1);
    }
  }

  /** A semiprime as the challenge carries it: the hex of its minimal big-endian bytes
      (src/lib.rs:368). */
  function EncodeSemiprime(n: nat): (s: string)
    ensures IsHexString(s) && |s| >= 2
  {
    HexEncode(ToBytesBE(n))
  }

  /** A semiprime read back from the challenge (src/lib.rs:337-340): None when the hex is invalid. */
  function DecodeSemiprime(s: string): (r: Option<nat>)
    ensures r.Some? <==> IsHexString(s)
  {
    match HexDecode(s)
    case None => None
    case Some(bytes) => Some(FromBytesBE(bytes))
  }

  /** The transport of a semiprime through the challenge is lossless. */
  lemma {:induction false} SemiprimeRoundTrip(n: nat)
    ensures DecodeSemiprime(EncodeSemiprime(n)) == Some(n)
  {
    HexRoundTrip(ToBytesBE(n));
    FromToBytesBE(n);
  }
}
