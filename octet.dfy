/** Bytes (`u8`) and the bitwise or that `generate_random_odd` applies to them. A byte is an
    integer in [0, 256), and or is defined on the binary digits, so that the rest of the model
    reasons about bytes as numbers. */
module Octet {
  import opened Arith

  /** `u8`. */
  newtype byte = x: int | 0 <= x < 256

  /** Bitwise or of the low k bits of a and b, from the least significant bit up. */
  function OrBits(a: nat, b: nat, k: nat): (r: nat)
    requires a < Pow(2, k) && b < Pow(2, k)
    ensures r < Pow(2, k)
  {
    if k == 0 then 0
    else
      var low := if a % 2 == 1 || b % 2 == 1 then 1 else 0;
      2 * OrBits(a / 2, b / 2, k - 1) + low
  }

  /** `a | b` on bytes. */
  function Or(a: byte, b: byte): byte
  {
    assert Pow(2, 8) == 256;
    OrBits(a as nat, b as nat, 8) as byte
  }

  /** Or with zero changes nothing. */
  lemma {:induction false} OrZero(a: nat, k: nat)
    requires a < Pow(2, k)
    ensures OrBits(a, 0, k) == a
  {
    if k > 0 {
      OrZero(a / 2, k - 1);
    }
  }

  /** Or with the single bit 2^j sets that bit: it adds 2^j exactly when the bit was clear. */
  lemma {:induction false} OrHighBit(a: nat, j: nat)
    requires a < Pow(2, j + 1)
    ensures OrBits(a, Pow(2, j), j + 1) == if a >= Pow(2, j) then a else a + Pow(2, j)
  {
    if j == 0 {
      OrZero(a / 2, 0);
    } else {
      var h := Pow(2, j - 1);
      assert Pow(2, j) == 2 * h;
      OrHighBit(a / 2, j - 1);
    }
  }

  /** `b | 0x80`: adds 128 when the top bit was clear, and keeps the parity. */
  lemma {:induction false} TopBit(b: byte)
    ensures Or(b, 0x80) as nat == if b as nat >= 128 then b as nat else b as nat + 128
    ensures Or(b, 0x80) as nat % 2 == b as nat % 2
  {
    assert Pow(2, 7) == 128 && Pow(2, 8) == 256;
    OrHighBit(b as nat, 7);
  }

  /** `b | 0x01`: adds 1 when b was even; the result is odd. */
  lemma {:induction false} LowBit(b: byte)
    ensures Or(b, 0x01) as nat == if b as nat % 2 == 1 then b as nat else b as nat + 1
    ensures Or(b, 0x01) as nat % 2 == 1
  {
    assert Pow(2, 0) == 1 && Pow(2, 8) == 256;
    OrZero(b as nat / 2, 7);
  }
}
