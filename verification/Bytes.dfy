/** Octets, as the C sources' `char` and `unsigned char` buffers hold them. */
module Bytes {
  type Byte = b: int | 0 <= b < 256

  function Pow2(n: nat): (r: nat)
    ensures r >= 1
  {
    if n == 0 then 1 else 2 * Pow2(n - 1)
  }

  lemma {:induction false} Pow2Add(a: nat, b: nat)
    ensures Pow2(a + b) == Pow2(a) * Pow2(b)
  {
    if a != 0 {
      Pow2Add(a - 1, b);
      assert Pow2(a + b) == 2 * Pow2(a - 1 + b);
    }
  }

  /** Exclusive or of the lowest `bits` bits. */
  function XorBits(a: nat, b: nat, bits: nat): (r: nat)
  {
    if bits == 0 then 0 else (a + b) % 2 + 2 * XorBits(a / 2, b / 2, bits - 1)
  }

  lemma {:induction false} XorBitsBound(a: nat, b: nat, bits: nat)
    ensures XorBits(a, b, bits) < Pow2(bits)
  {
    if bits > 0 { XorBitsBound(a / 2, b / 2, bits - 1); }
  }

  lemma BitCancel(a: nat, b: nat, rest: nat)
    ensures var x := (a + b) % 2 + 2 * rest; x / 2 == rest && (x + b) % 2 == a % 2
  {
  }

  lemma {:induction false} XorBitsCancel(a: nat, b: nat, bits: nat)
    requires a < Pow2(bits)
    ensures XorBits(XorBits(a, b, bits), b, bits) == a
  {
    if bits > 0 {
      XorBitsCancel(a / 2, b / 2, bits - 1);
      BitCancel(a, b, XorBits(a / 2, b / 2, bits - 1));
    }
  }

  /** The C operator `^` on octets. */
  function Xor(a: Byte, b: Byte): (r: Byte)
  {
    XorBitsBound(a, b, 8);
    assert Pow2(8) == 256 by { assert Pow2(4) == 16; }
    XorBits(a, b, 8)
  }

  lemma XorCancel(a: Byte, b: Byte)
    ensures Xor(Xor(a, b), b) == a
  {
    assert Pow2(8) == 256 by { assert Pow2(4) == 16; }
    XorBitsCancel(a, b, 8);
  }

  lemma XorZero(b: Byte)
    ensures Xor(0, b) == b
  {
    XorWithZero(b, 8);
    assert Pow2(8) == 256 by { assert Pow2(4) == 16; }
  }

  lemma {:induction false} XorWithZero(b: nat, bits: nat)
    requires b < Pow2(bits)
    ensures XorBits(0, b, bits) == b
  {
    if bits > 0 { XorWithZero(b / 2, bits - 1); }
  }
}
