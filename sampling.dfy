/** Shaping random bytes into candidates (src/lib.rs `generate_random_odd`, `generate_random_range`).
    The random number generator is not modelled: the bytes it would produce are parameters. */
module Sampling {
  import opened Arith
  import opened Bytes
  import opened Octet

  /** `bits.div_ceil(8)`: the number of bytes that hold `bits` bits. */
  function ByteCount(bits: nat): (r: nat)
    ensures bits <= 8 * r < bits + 8
    ensures 8 * r == bits <==> bits % 8 == 0
  {
    (bits + 7) / 8
  }

  /** `BigUint::bits`: the position of the highest set bit, 0 for 0. */
  function BitLength(v: nat): nat
  {
    if v == 0 then 0 else 1 + BitLength(v / 2)
  }

  /** A value between 2^(k-1) and 2^k has exactly k bits. */
  lemma {:induction false} BitLengthOf(v: nat, k: nat)
    requires k >= 1 && Pow(2, k - 1) <= v < Pow(2, k)
    ensures BitLength(v) == k
  {
    var h := v / 2;
    assert v == 2 * h + v % 2;
    if k == 1 {
      assert Pow(2, 0) == 1 && Pow(2, 1) == 2;
      assert BitLength(h) == 0;
    } else {
      var p := Pow(2, k - 2);
      assert Pow(2, k - 1) == 2 * p;
      assert Pow(2, k) == 2 * Pow(2, k - 1);
      assert p <= h < 2 * p;
      BitLengthOf(h, k - 1);
    }
  }

  /** Every value lies below 2 to the power of its bit length. */
  lemma {:induction false} BitLengthBound(v: nat)
    ensures v < Pow(2, BitLength(v))
  {
    if v > 0 {
      BitLengthBound(v / 2);
      assert v <= 2 * (v / 2) + 1;
    }
  }

  /** Bytes and bits: 256^k == 2^(8k). */
  lemma {:induction false} PowBytes(k: nat)
    ensures Pow(256, k) == Pow(2, 8 * k)
  {
    PowMul(2, 8, k);
    assert Pow(2, 8) == 256;
  }

  /** Powers of a base of at least 1 do not shrink as the exponent grows. */
  lemma {:induction false} PowMonotone(b: nat, e1: nat, e2: nat)
    requires b >= 1 && e1 <= e2
    ensures Pow(b, e1) <= Pow(b, e2)
    decreases e2
  {
    if e1 < e2 {
      var q := Pow(b, e2 - 1);
      assert Pow(b, e1) <= q by { PowMonotone(b, e1, e2 - 1); }
      assert q <= b * q by { MulLe(1, b, q); }
      assert Pow(b, e2) == b * q;
    }
  }

  /** The value `generate_random_odd` shapes from the random bytes, stated on numbers: the top bit
      of the first byte and the low bit of the last byte are added when they are clear. */
  function ShapedOdd(random: seq<byte>): nat
    requires random != []
  {
    FromBytesBE(random)
      + (if random[0] as nat < 128 then 128 * Pow(256, |random| - 1) else 0)
      + (if random[|random| - 1] as nat % 2 == 0 then 1 else 0)
  }

  /** Raising byte i by k raises the value by k times the byte's place value. */
  lemma {:induction false} RaiseByte(s: seq<byte>, i: nat, c: byte, k: nat)
    requires i < |s| && c as nat == s[i] as nat + k
    ensures FromBytesBE(s[i := c]) == FromBytesBE(s) + k * Pow(256, |s| - 1 - i)
  {
    FromBytesBEUpdate(s, i, c);
    Distribute(s[i] as nat, k, Pow(256, |s| - 1 - i));
  }

  lemma {:induction false} Distribute(a: nat, k: nat, p: nat)
    ensures (a + k) * p == a * p + k * p
  {
  }

  /** The value after the two updates of `generate_random_odd`, given what each update did to its
      byte: t is the new first byte, u the new last byte. */
  lemma {:induction false} ShapeValue(random: seq<byte>, t: byte, u: byte)
    requires random != []
    requires t as nat == random[0] as nat + (if random[0] as nat < 128 then 128 else 0)
    requires u as nat == random[0 := t][|random| - 1] as nat
                         + (if random[|random| - 1] as nat % 2 == 0 then 1 else 0)
    ensures FromBytesBE(random[0 := t][|random| - 1 := u]) == ShapedOdd(random)
  {
    var n := |random|;
    var s1 := random[0 := t];
    var top: nat := if random[0] as nat < 128 then 128 else 0;
    var low: nat := if random[n - 1] as nat % 2 == 0 then 1 else 0;
    var raised: nat := if random[0] as nat < 128 then 128 * Pow(256, n - 1) else 0;
    var v: nat := FromBytesBE(random);
    assert FromBytesBE(s1) == v + raised by {
      RaiseByte(random, 0, t, top);
      if random[0] as nat >= 128 { assert top * Pow(256, n - 1) == 0; }
    }
    assert FromBytesBE(s1[n - 1 := u]) == FromBytesBE(s1) + low by {
      RaiseByte(s1, n - 1, u, low);
      assert Pow(256, 0) == 1;
    }
    assert ShapedOdd(random) == v + raised + low;
  }

  /** After the updates the first byte is at least 128 and the last byte is odd, also when they
      are the same byte. */
  lemma {:induction false} ShapedBits(random: seq<byte>, t: byte, u: byte)
    requires random != [] && t as nat >= 128
    requires u as nat % 2 == 1 && u as nat >= random[0 := t][|random| - 1] as nat
    ensures random[0 := t][|random| - 1 := u][0] as nat >= 128
    ensures random[0 := t][|random| - 1 := u][|random| - 1] as nat % 2 == 1
  {
  }

  lemma {:induction false} MulLe(a: nat, b: nat, c: nat)
    requires a <= b
    ensures a * c <= b * c
  {
  }

  /** A shaped candidate is odd and has its top bit set: 2^(8n-1) <= v < 2^(8n). */
  lemma {:induction false} ShapedOddRange(s: seq<byte>)
    requires s != [] && s[0] as nat >= 128 && s[|s| - 1] as nat % 2 == 1
    ensures FromBytesBE(s) % 2 == 1
    ensures Pow(2, 8 * |s| - 1) <= FromBytesBE(s) < Pow(2, 8 * |s|)
  {
    var n := |s|;
    var v := FromBytesBE(s);
    FromBytesBEParity(s);
    assert v < Pow(2, 8 * n) by {
      FromBytesBEBound(s);
      PowBytes(n);
    }
    var p := Pow(256, n - 1);
    assert 128 * p <= v by {
      FromBytesBELeading(s);
      MulLe(128, s[0] as nat, p);
    }
    assert Pow(2, 8 * n - 1) == 128 * p by {
      PowBytes(n - 1);
      PowAdd(2, 7, 8 * (n - 1));
      assert Pow(2, 7) == 128;
    }
  }

  /** What the two bit operations of `generate_random_odd` do, stated on numbers. */
  lemma {:induction false} ShapeBitFacts(random: seq<byte>, t: byte, u: byte)
    requires random != [] && t == Or(random[0], 0x80) && u == Or(random[0 := t][|random| - 1], 0x01)
    ensures t as nat == random[0] as nat + (if random[0] as nat < 128 then 128 else 0)
    ensures t as nat >= 128
    ensures u as nat == random[0 := t][|random| - 1] as nat
                        + (if random[|random| - 1] as nat % 2 == 0 then 1 else 0)
    ensures u as nat % 2 == 1 && u as nat >= random[0 := t][|random| - 1] as nat
  {
    var n := |random|;
    var c := random[0 := t][n - 1];
    TopBit(random[0]);
    LowBit(c);
    assert c as nat % 2 == random[n - 1] as nat % 2 by {
      if n == 1 {
        assert c == t;
      } else {
        assert c == random[n - 1];
      }
    }
  }

  /** The buffer `generate_random_odd` reads is worth ShapedOdd(random), is odd and has its top bit
      set. */
  lemma {:induction false} ShapeFacts(random: seq<byte>, t: byte, u: byte)
    requires random != [] && t == Or(random[0], 0x80) && u == Or(random[0 := t][|random| - 1], 0x01)
    ensures FromBytesBE(random[0 := t][|random| - 1 := u]) == ShapedOdd(random)
    ensures FromBytesBE(random[0 := t][|random| - 1 := u]) % 2 == 1
    ensures Pow(2, 8 * |random| - 1) <= FromBytesBE(random[0 := t][|random| - 1 := u])
                                      < Pow(2, 8 * |random|)
    ensures BitLength(FromBytesBE(random[0 := t][|random| - 1 := u])) == 8 * |random|
  {
    var s := random[0 := t][|random| - 1 := u];
    var v, k := FromBytesBE(s), 8 * |random|;
    ShapeBitFacts(random, t, u);
    assert v == ShapedOdd(random) by { ShapeValue(random, t, u); }
    assert v % 2 == 1 && Pow(2, k - 1) <= v < Pow(2, k) by {
      ShapedBits(random, t, u);
      ShapedOddRange(s);
    }
    BitLengthOf(v, k);
  }

  /** `generate_random_odd(bits, rng)`: the buffer of ceil(bits/8) random bytes gets its top bit and
      its low bit set and is read big-endian. The result is odd and has exactly 8 * ceil(bits/8)
      bits, which is `bits` exactly when bits is a multiple of 8 (as with 48-bit primes). For a zero
      `bits` the buffer is empty and the source panics indexing its first byte, so the model
      requires a positive one (the one caller passes 48). */
  method GenerateRandomOdd(bits: nat, random: seq<byte>) returns (v: nat)
    requires bits > 0 && |random| == ByteCount(bits)
    ensures v == ShapedOdd(random)
    ensures v % 2 == 1
    ensures Pow(2, 8 * |random| - 1) <= v < Pow(2, 8 * |random|)
    ensures BitLength(v) == 8 * ByteCount(bits)
    ensures BitLength(v) == bits <==> bits % 8 == 0
  {
    var n := ByteCount(bits);
    var data := new byte[n](i requires 0 <= i < n => random[i]);
    assert data[..] == random;
    data[0] := Or(data[0], 0x80);
    data[n - 1] := Or(data[n - 1], 0x01);
    v := FromBytesBE(data[..]);

    ghost var t := Or(random[0], 0x80);
    ghost var u := Or(random[0 := t][n - 1], 0x01);
    assert data[..] == random[0 := t][n - 1 := u];
    ShapeFacts(random, t, u);
  }

  /** The `n`-byte big-endian encoding of x, padded with leading zero bytes. */
  function PaddedBytes(x: nat, n: nat): (s: seq<byte>)
    requires x < Pow(256, n)
    ensures |s| == n && FromBytesBE(s) == x
  {
    if n == 0 then []
    else
      var s := PaddedBytes(x / 256, n - 1) + [(x % 256) as byte];
      assert s[..n - 1] == PaddedBytes(x / 256, n - 1);
      s
  }

  /** `generate_random_range(min, max, rng)` on one draw of ceil(bits(max - min)/8) bytes: the
      draw read big-endian, reduced modulo max - min, plus min. The source panics when max <= min
      (underflow, or a remainder by zero), so callers pass min < max. */
  function RandomRange(min: nat, max: nat, draw: seq<byte>): (v: nat)
    requires min < max && |draw| == ByteCount(BitLength(max - min))
    ensures min <= v < max
  {
    min + FromBytesBE(draw) % (max - min)
  }

  /** An observation about the source rather than a promise it makes: the retry test
      (`candidate < range`) holds for every draw, because the candidate is already reduced
      modulo the range, so the first draw always decides and the result is the reduced draw. */
  lemma RandomRangeFirstDraw(min: nat, max: nat, draw: seq<byte>)
    requires min < max && |draw| == ByteCount(BitLength(max - min))
    ensures FromBytesBE(draw) % (max - min) < max - min
    ensures RandomRange(min, max, draw) - min == FromBytesBE(draw) % (max - min)
  {
  }

  /** Every value of [min, max) is produced by some draw of the right length. */
  lemma {:induction false} RandomRangeCovers(min: nat, max: nat, t: nat)
    requires min <= t < max
    ensures exists draw: seq<byte> :: |draw| == ByteCount(BitLength(max - min))
                                     && RandomRange(min, max, draw) == t
  {
    var x: nat, range: nat := t - min, max - min;
    var n := ByteCount(BitLength(range));
    assert x < Pow(256, n) by { DrawCapacity(range); }
    var draw := PaddedBytes(x, n);
    assert RandomRange(min, max, draw) == t by {
      DivModUnique(x, range, 0, x);
    }
  }

  /** A draw of ByteCount(BitLength(range)) bytes can hold every value below range. */
  lemma {:induction false} DrawCapacity(range: nat)
    ensures range < Pow(256, ByteCount(BitLength(range)))
  {
    var n := ByteCount(BitLength(range));
    BitLengthBound(range);
    PowMonotone(2, BitLength(range), 8 * n);
    PowBytes(n);
  }
}
