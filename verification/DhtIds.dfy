/** Bits of 20-byte ids and the blocks of ids that buckets cover. */
module DhtIds {
  import opened Bytes
  import opened ModArith

  // ------------------------------------------------- the C operators

  function BitAnd(a: nat, b: nat): nat
    decreases a
  {
    if a == 0 then 0 else (if a % 2 == 1 && b % 2 == 1 then 1 else 0) + 2 * BitAnd(a / 2, b / 2)
  }

  function BitOr(a: nat, b: nat): nat
    decreases a + b
  {
    if a + b == 0 then 0 else (if a % 2 == 1 || b % 2 == 1 then 1 else 0) + 2 * BitOr(a / 2, b / 2)
  }

  function ShiftRight(a: nat, n: nat): nat
  {
    QuotientNonnegative(a, Pow2(n));
    a / Pow2(n)
  }

  function Bit(v: nat, e: nat): nat
  {
    (v / Pow2(e)) % 2
  }

  lemma HalfPow(a: nat, k: nat)
    requires k > 0
    ensures a / Pow2(k) == (a / 2) / Pow2(k - 1)
  {
    DivDiv(a, 2, Pow2(k - 1));
  }

  lemma {:induction false} AndPow(a: nat, k: nat)
    ensures BitAnd(a, Pow2(k)) == if Bit(a, k) == 1 then Pow2(k) else 0
    decreases k
  {
    if k == 0 {
      AndZero(a / 2);
    } else if a > 0 {
      HalfPow(a, k);
      AndPow(a / 2, k - 1);
      assert Pow2(k) % 2 == 0 && Pow2(k) / 2 == Pow2(k - 1);
    } else {
      assert 0 / Pow2(k) == 0;
    }
  }

  lemma {:induction false} AndZero(a: nat)
    ensures BitAnd(a, 0) == 0
  {
    if a > 0 { AndZero(a / 2); }
  }

  lemma {:induction false} OrZero(a: nat)
    ensures BitOr(a, 0) == a && BitOr(0, a) == a
  {
    if a > 0 { OrZero(a / 2); }
  }

  /** Or of a multiple of 2^m with something smaller is their sum. */
  lemma {:induction false} OrDisjoint(a: nat, b: nat, m: nat)
    requires a % Pow2(m) == 0 && b < Pow2(m)
    ensures BitOr(a, b) == a + b
    decreases m
  {
    if m == 0 {
      OrZero(a);
    } else {
      EvenMultiple(a, m);
      OrDisjoint(a / 2, b / 2, m - 1);
    }
  }

  lemma EvenMultiple(a: nat, m: nat)
    requires m > 0 && a % Pow2(m) == 0
    ensures a % 2 == 0 && (a / 2) % Pow2(m - 1) == 0
  {
    var p, q := Pow2(m - 1), a / Pow2(m);
    assert a == (2 * p) * q;
    assert a == 2 * (p * q) by { assert (2 * p) * q == 2 * (p * q); }
    DivUnique(p * q, p, q, 0);
  }

  /** Masking with 2^m - 1 takes the remainder. */
  lemma {:induction false} AndLow(a: nat, m: nat)
    ensures BitAnd(a, Pow2(m) - 1) == a % Pow2(m)
    decreases m
  {
    if m == 0 {
      AndZero(a);
    } else if a > 0 {
      AndLow(a / 2, m - 1);
      var p := Pow2(m - 1);
      assert (Pow2(m) - 1) / 2 == p - 1 && (Pow2(m) - 1) % 2 == 1;
      RemainderHalves(a, p);
    } else {
      assert 0 % Pow2(m) == 0;
    }
  }

  lemma RemainderHalves(a: nat, p: nat)
    requires p > 0
    ensures a % (2 * p) == a % 2 + 2 * ((a / 2) % p)
  {
    var h, q := a / 2, (a / 2) / p;
    assert h == p * q + h % p;
    assert a == 2 * h + a % 2;
    assert 2 * (p * q) == q * (2 * p);
    DivUnique(a, 2 * p, q, a % 2 + 2 * (h % p));
  }

  lemma {:induction false} Pow2Below(m: nat, n: nat)
    requires m <= n
    ensures Pow2(m) <= Pow2(n)
    decreases n
  {
    if m < n { Pow2Below(m, n - 1); }
  }

  /** A mask of width n whose lowest m bits are clear, with anything above it. */
  function HighMask(c: nat, m: nat, n: nat): (mask: nat)
    requires m <= n
  {
    Pow2Below(m, n);
    MulNonnegative(c, Pow2(n));
    c * Pow2(n) + Pow2(n) - Pow2(m)
  }

  lemma MulNonnegative(c: nat, p: nat)
    ensures c * p >= 0
  {
  }

  lemma MaskHalves(c: nat, m: nat, n: nat)
    requires m <= n && n > 0
    ensures m > 0 ==> HighMask(c, m, n) == 2 * HighMask(c, m - 1, n - 1)
    ensures m == 0 ==> HighMask(c, m, n) == 2 * HighMask(c, 0, n - 1) + 1
  {
    var p := Pow2(n - 1);
    assert c * (2 * p) == 2 * (c * p);
  }

  lemma AndStep(a: nat, b: nat)
    ensures BitAnd(2 * a, 2 * b) == 2 * BitAnd(a, b)
    ensures a > 0 ==> BitAnd(a, 2 * b + 1) == a % 2 + 2 * BitAnd(a / 2, b)
  {
    assert (2 * a) / 2 == a && (2 * b) / 2 == b && (2 * b + 1) / 2 == b;
  }

  /** It keeps multiples of 2^m below 2^n. */
  lemma {:induction false} AndHighBits(a: nat, c: nat, m: nat, n: nat)
    requires a % Pow2(m) == 0 && a < Pow2(n) && m <= n
    ensures BitAnd(a, HighMask(c, m, n)) == a
    decreases n
  {
    if a > 0 && n > 0 {
      MaskHalves(c, m, n);
      if m == 0 {
        AndHighBits(a / 2, c, 0, n - 1) by { assert (a / 2) % Pow2(0) == 0; }
        AndStep(a, HighMask(c, 0, n - 1));
      } else {
        EvenMultiple(a, m);
        AndHighBits(a / 2, c, m - 1, n - 1);
        AndStep(a / 2, HighMask(c, m - 1, n - 1));
      }
    }
  }

  /** `0x80 >> j`, `0xFF >> j` and `0xFF00 >> j`. */
  lemma Masks(j: nat)
    requires j < 8
    ensures ShiftRight(0x80, j) == Pow2(7 - j)
    ensures ShiftRight(0xFF, j) == Pow2(8 - j) - 1
    ensures ShiftRight(0xFF00, j) == HighMask(ShiftRight(0xFF, j), 8 - j, 8)
  {
    assert Pow2(8) == 256 by { assert Pow2(4) == 16; }
    assert Pow2(4) == 16 && Pow2(5) == 32 && Pow2(6) == 64 && Pow2(7) == 128;
    if j == 0 || j == 1 || j == 2 || j == 3 {
    } else {
    }
  }
}
