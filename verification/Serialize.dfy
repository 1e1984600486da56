/** seccure/serialize.c: integers printed at fixed length in base 256, 90 or 36. */
module Serialize {
  import opened Bytes
  import opened ModArith
  import opened Primes
  import opened Mpi

  datatype DispFormat = Bin | Compact | Base36

  const COMPACT_LOW := "!#$%&()*+,-./0123456789:;<=>?@"
  const COMPACT_UPPER := "ABCDEFGHIJKLMNOPQRSTUVWXYZ[]^_"
  const COMPACT_LOWER := "abcdefghijklmnopqrstuvwxyz{|}~"
  const COMPACT_DIGITS := COMPACT_LOW + COMPACT_UPPER + COMPACT_LOWER
  const BASE36_DIGITS := "0123456789abcdefghijklmnopqrstuvwxyz"

  /** `get_digit_count`, and 256 for the raw format. */
  function Base(df: DispFormat): (b: nat)
    ensures b >= 2
  {
    match df
    case Bin => 256
    case Compact => 90
    case Base36 => 36
  }

  /** The printable characters 33..126 without the backslash and the quotes. */
  function CompactCode(d: nat): int
  {
    if d < 1 then 33 + d else if d < 5 then 34 + d else if d < 57 then 35 + d else if d < 60 then 36 + d else 37 + d
  }

  lemma CompactTable()
    ensures |COMPACT_DIGITS| == 90
    ensures forall d :: 0 <= d < 90 ==> COMPACT_DIGITS[d] as int == CompactCode(d)
  {
    CompactLow();
    CompactUpper();
    CompactLower();
  }

  lemma CompactLow()
    ensures |COMPACT_LOW| == 30 && forall d :: 0 <= d < 30 ==> COMPACT_LOW[d] as int == CompactCode(d)
  {
  }

  lemma CompactUpper()
    ensures |COMPACT_UPPER| == 30 && forall d :: 0 <= d < 30 ==> COMPACT_UPPER[d] as int == CompactCode(d + 30)
  {
  }

  lemma CompactLower()
    ensures |COMPACT_LOWER| == 30 && forall d :: 0 <= d < 30 ==> COMPACT_LOWER[d] as int == CompactCode(d + 60)
  {
  }

  lemma Base36Table()
    ensures |BASE36_DIGITS| == 36
    ensures forall d :: 0 <= d < 36 ==> BASE36_DIGITS[d] as int == if d < 10 then 48 + d else 87 + d
  {
  }

  /** The character for digit d; a raw byte stands for itself. */
  function DigitByte(df: DispFormat, d: nat): (c: Byte)
    requires d < Base(df)
  {
    CompactTable();
    Base36Table();
    match df
    case Bin => d
    case Compact => COMPACT_DIGITS[d] as int
    case Base36 => BASE36_DIGITS[d] as int
  }

  lemma DigitByteInjective(df: DispFormat, d: nat, e: nat)
    requires d < Base(df) && e < Base(df) && DigitByte(df, d) == DigitByte(df, e)
    ensures d == e
  {
    CompactTable();
    Base36Table();
  }

  // ------------------------------------------- positional notation

  predicate AllDigits(ds: seq<nat>, b: nat)
  {
    forall i :: 0 <= i < |ds| ==> ds[i] < b
  }

  /** The number a digit string denotes, most significant digit first. */
  function Value(ds: seq<nat>, b: nat): nat
  {
    if ds == [] then 0 else Value(ds[..|ds| - 1], b) * b + ds[|ds| - 1]
  }

  lemma AppendDigit(ds: seq<nat>, d: nat, b: nat)
    ensures Value(ds + [d], b) == Value(ds, b) * b + d
  {
    assert (ds + [d])[..|ds|] == ds;
  }

  /** The lowest `len` digits of x. */
  function Digits(x: nat, len: nat, b: nat): (ds: seq<nat>)
    requires b >= 2
    ensures |ds| == len && AllDigits(ds, b)
    decreases len
  {
    if len == 0 then [] else
      QuotientNonnegative(x, b);
      Digits(x / b, len - 1, b) + [x % b]
  }

  lemma {:induction false} ValueOfDigits(x: nat, len: nat, b: nat)
    requires b >= 2 && x < Pow(b, len)
    ensures Value(Digits(x, len, b), b) == x
    decreases len
  {
    if len == 0 { assert Pow(b, 0) == 1; }
    hide Pow;
    if len > 0 {
      LastDigit(x, len - 1, b);
      ValueOfDigits(x / b, len - 1, b);
      AppendDigit(Digits(x / b, len - 1, b), x % b, b);
      DivMod(x, b);
    }
  }

  lemma DivMod(x: nat, b: nat)
    requires b > 0
    ensures x / b * b + x % b == x
  {
  }

  lemma LastDigit(q: nat, n: nat, b: nat)
    requires b >= 2 && q < Pow(b, n + 1)
    ensures 0 <= q / b < Pow(b, n)
    ensures Digits(q, n + 1, b) == Digits(q / b, n, b) + [q % b]
  {
    QuotientNonnegative(q, b);
    QuotientBelow(q, b, Pow(b, n));
  }

  lemma QuotientBelow(x: nat, b: nat, w: nat)
    requires b > 0 && x < b * w
    ensures x / b < w
  {
    var q := x / b;
    assert q >= w ==> b * q >= b * w;
  }

  lemma {:induction false} DigitsOfValue(ds: seq<nat>, b: nat)
    requires b >= 2 && AllDigits(ds, b)
    ensures Value(ds, b) < Pow(b, |ds|)
    ensures Digits(Value(ds, b), |ds|, b) == ds
    decreases |ds|
  {
    if ds != [] {
      var n := |ds| - 1;
      DigitsOfValue(ds[..n], b);
      var v, d := Value(ds[..n], b), ds[n];
      AppendBelow(v, d, b, Pow(b, n));
      DivUnique(v * b + d, b, v, d);
      assert ds == ds[..n] + [d];
    }
  }

  lemma AppendBelow(v: nat, d: nat, b: nat, w: nat)
    requires v < w && d < b
    ensures v * b + d < b * w
  {
    assert (v + 1) * b <= w * b;
  }

  /** The text of x at length len. */
  function Printed(x: nat, len: nat, df: DispFormat): (s: seq<Byte>)
    ensures |s| == len
  {
    var ds := Digits(x, len, Base(df));
    seq(len, i requires 0 <= i < len => DigitByte(df, ds[i]))
  }

  /** The i-th character is that of the digit of weight b^(len-1-i). */
  lemma PrintedDigit(x: nat, len: nat, df: DispFormat, i: nat)
    requires i < len
    ensures Pow(Base(df), len - 1 - i) >= 1
    ensures var b := Base(df);
            var d := x / Pow(b, len - 1 - i) % b;
            0 <= d < b && Printed(x, len, df)[i] == DigitByte(df, d)
  {
    DigitAt(x, len, Base(df), i);
  }

  lemma {:induction false} DigitAt(x: nat, len: nat, b: nat, i: nat)
    requires b >= 2 && i < len
    ensures Pow(b, len - 1 - i) >= 1 && x / Pow(b, len - 1 - i) % b == Digits(x, len, b)[i]
    decreases len
  {
    PowAtLeastOne(b, len - 1 - i);
    if i == len - 1 {
      assert Pow(b, 0) == 1;
    } else {
      PowAtLeastOne(b, len - 2 - i);
      QuotientNonnegative(x, b);
      DigitAt(x / b, len - 1, b, i);
      DivDiv(x, b, Pow(b, len - 2 - i));
    }
  }

  lemma {:induction false} PowAtLeastOne(b: nat, n: nat)
    requires b >= 1
    ensures Pow(b, n) >= 1
  {
    if n > 0 {
      PowAtLeastOne(b, n - 1);
      ProductAtLeastOne(b, Pow(b, n - 1));
    }
  }

  lemma ProductAtLeastOne(a: int, b: int)
    requires a >= 1 && b >= 1
    ensures a * b >= 1
  {
  }

  lemma PrintedInjective(x: nat, y: nat, len: nat, df: DispFormat)
    requires x < Pow(Base(df), len) && y < Pow(Base(df), len)
    requires Printed(x, len, df) == Printed(y, len, df)
    ensures x == y
  {
    var b := Base(df);
    var ds, es := Digits(x, len, b), Digits(y, len, b);
    forall i | 0 <= i < len
      ensures ds[i] == es[i]
    {
      assert Printed(x, len, df)[i] == DigitByte(df, ds[i]);
      assert Printed(y, len, df)[i] == DigitByte(df, es[i]);
      DigitByteInjective(df, ds[i], es[i]);
    }
    assert ds == es;
    ValueOfDigits(x, len, b);
    ValueOfDigits(y, len, b);
  }

  // ------------------------------------------------------ lengths

  /** len digits are needed and enough. */
  predicate LeastLength(x: nat, len: nat, b: nat)
  {
    x < Pow(b, len) && (len > 0 ==> Pow(b, len - 1) <= x)
  }

  lemma BitLengthLeast(x: nat)
    ensures LeastLength(x, BitLength(x), 2)
  {
    if x != 0 {
      BitLengthLeast(x / 2);
      assert Pow(2, BitLength(x)) == 2 * Pow(2, BitLength(x / 2));
      if BitLength(x) > 1 {
        assert Pow(2, BitLength(x) - 1) == 2 * Pow(2, BitLength(x / 2) - 1);
      }
    }
  }

  lemma {:induction false} PowMonotone(b: nat, m: nat, n: nat)
    requires b >= 1 && m <= n
    ensures 1 <= Pow(b, m) <= Pow(b, n)
    decreases n
  {
    if m < n {
      PowMonotone(b, m, n - 1);
      assert b * Pow(b, n - 1) >= Pow(b, n - 1);
    } else if m > 0 {
      PowMonotone(b, m - 1, m - 1);
      assert b * Pow(b, m - 1) >= Pow(b, m - 1);
    }
  }

  lemma BytePower(k: nat)
    ensures Pow(256, k) == Pow(2, 8 * k)
  {
    PowerOfTwoEight();
    PowMul(2, 8, k);
  }

  lemma PowerOfTwoEight()
    ensures Pow(2, 8) == 256
  {
    assert Pow(2, 4) == 16;
    PowAdd(2, 4, 4);
  }

  lemma ByteBracket(x: nat, n: nat, k: nat)
    requires LeastLength(x, n, 2) && n <= 8 * k < n + 8
    ensures LeastLength(x, k, 256)
  {
    hide Pow;
    BytePower(k);
    PowMonotone(2, n, 8 * k);
    if k > 0 {
      BytePower(k - 1);
      PowMonotone(2, 8 * (k - 1), n - 1);
    }
  }

  lemma ByteLengthLeast(x: nat)
    ensures LeastLength(x, (BitLength(x) + 7) / 8, 256)
  {
    BitLengthLeast(x);
    ByteBracket(x, BitLength(x), (BitLength(x) + 7) / 8);
  }

  /** Dividing by the base drops one digit. */
  lemma LengthStep(x: nat, k: nat, b: nat)
    requires b >= 2 && x > 0 && x / b >= 0 && LeastLength(x / b, k, b)
    ensures LeastLength(x, k + 1, b)
  {
    assert Pow(b, k + 1) == b * Pow(b, k);
    if k > 0 {
      assert Pow(b, k) == b * Pow(b, k - 1);
      QuotientBracket(x, b, Pow(b, k - 1), Pow(b, k));
    } else {
      assert Pow(b, 0) == 1;
      QuotientBracket(x, b, 0, 1);
    }
  }

  lemma QuotientBracket(x: nat, b: nat, lo: int, hi: int)
    requires b > 0 && lo <= x / b < hi
    ensures b * lo <= x < b * hi
  {
    assert b * lo <= b * (x / b);
    assert b * (x / b + 1) <= b * hi;
  }

  lemma LeastLengthUnique(x: nat, k: nat, n: nat, b: nat)
    requires b >= 2 && LeastLength(x, k, b) && LeastLength(x, n, b)
    ensures k == n
  {
    if k < n { PowMonotone(b, k, n - 1); }
    if n < k { PowMonotone(b, n, k - 1); }
  }

  lemma QuotientSmaller(x: nat, b: nat)
    requires b >= 2 && x > 0
    ensures 0 <= x / b < x
  {
    QuotientNonnegative(x, b);
    assert x < b * x;
    QuotientBelow(x, b, x);
  }

  ghost function Length(x: nat, b: nat): (k: nat)
    requires b >= 2
    ensures LeastLength(x, k, b)
  {
    if x == 0 then 0 else
      QuotientSmaller(x, b);
      LengthStep(x, Length(x / b, b), b);
      Length(x / b, b) + 1
  }

  method GetSerializationLen(x: nat, df: DispFormat) returns (res: nat)
    ensures LeastLength(x, res, Base(df))
  {
    if df == Bin {
      ByteLengthLeast(x);
      res := (BitLength(x) + 7) / 8;
    } else {
      var base := Base(df);
      var q := x;
      res := 0;
      while q != 0
        invariant q >= 0 && Length(x, base) == res + Length(q, base)
        decreases q
      {
        QuotientSmaller(q, base);
        q := q / base;
        res := res + 1;
      }
    }
  }

  // --------------------------------------------- printing and scanning

  lemma {:induction false} DigitsSplit(x: nat, n: nat, k: nat, b: nat)
    requires b >= 2
    ensures Pow(b, k) > 0 && x / Pow(b, k) >= 0
    ensures Digits(x, n + k, b) == Digits(x / Pow(b, k), n, b) + Digits(x, k, b)
    decreases k
  {
    PowMonotone(b, k, k);
    QuotientNonnegative(x, Pow(b, k));
    if k == 0 {
      assert x / 1 == x;
    } else {
      QuotientNonnegative(x, b);
      DigitsSplit(x / b, n, k - 1, b);
      DivDiv(x, b, Pow(b, k - 1));
      assert Digits(x, n + k, b) == Digits(x / b, n + k - 1, b) + [x % b];
    }
  }

  /** `assert(len <= outlen)` and `assert(! gcry_mpi_cmp_ui(Q, 0))`: x must fit. */
  method SerializeMpi(outbuf: array<Byte>, outlen: nat, df: DispFormat, x: nat)
    requires outlen <= outbuf.Length && x < Pow(Base(df), outlen)
    modifies outbuf
    ensures outbuf[..outlen] == Printed(x, outlen, df)
    ensures outbuf[outlen..] == old(outbuf[outlen..])
  {
    if df == Bin {
      SerializeRaw(outbuf, outlen, x);
    } else {
      WriteDigits(outbuf, 0, outlen, df, x);
    }
  }

  /** Leading zero bytes, then the bytes `gcry_mpi_print` produces. */
  method SerializeRaw(outbuf: array<Byte>, outlen: nat, x: nat)
    requires outlen <= outbuf.Length && x < Pow(256, outlen)
    modifies outbuf
    ensures outbuf[..outlen] == Printed(x, outlen, Bin)
    ensures outbuf[outlen..] == old(outbuf[outlen..])
  {
    var len := (BitLength(x) + 7) / 8;
    ByteLengthLeast(x);
    LengthFits(x, outlen, len, 256);
    PaddedPrint(x, outlen, len);
    hide Pow, Digits, BitLength, Printed, LeastLength;
    ZeroFill(outbuf, outlen - len);
    WriteDigits(outbuf, outlen - len, outlen, Bin, x);
    assert outbuf[..outlen] == outbuf[..outlen - len] + outbuf[outlen - len..outlen];
  }

  /** `memset(outbuf, 0, n)`. */
  method ZeroFill(outbuf: array<Byte>, n: nat)
    requires n <= outbuf.Length
    modifies outbuf
    ensures outbuf[..n] == seq(n, i => 0)
    ensures outbuf[n..] == old(outbuf[n..])
  {
    var i := 0;
    while i < n
      invariant 0 <= i <= n
      invariant forall k :: 0 <= k < i ==> outbuf[k] == 0
      invariant outbuf[n..] == old(outbuf[n..])
    {
      outbuf[i] := 0;
      i := i + 1;
    }
  }

  lemma LengthFits(x: nat, n: nat, len: nat, b: nat)
    requires b >= 2 && LeastLength(x, len, b) && x < Pow(b, n)
    ensures len <= n && x < Pow(b, len)
  {
    if len > n { PowMonotone(b, n, len - 1); }
  }

  lemma LeadingZeros(x: nat, n: nat, k: nat, b: nat)
    requires b >= 2 && k <= n && x < Pow(b, k)
    ensures Digits(x, n, b) == seq(n - k, i => 0) + Digits(x, k, b)
  {
    hide Pow, Digits;
    DigitsSplit(x, n - k, k, b);
    DivUnique(x, Pow(b, k), 0, x);
    ZeroDigits(n - k, b);
  }

  lemma PaddedPrint(x: nat, n: nat, k: nat)
    requires k <= n && x < Pow(256, k)
    ensures Printed(x, n, Bin) == seq(n - k, i => 0) + Printed(x, k, Bin)
  {
    LeadingZeros(x, n, k, 256);
  }

  lemma {:induction false} ZeroDigits(n: nat, b: nat)
    requires b >= 2
    ensures Digits(0, n, b) == seq(n, i => 0)
  {
    if n > 0 {
      assert 0 / b == 0 && 0 % b == 0;
      ZeroDigits(n - 1, b);
    }
  }

  /** The digit loop, from the end of the buffer towards `lo`. */
  method WriteDigits(outbuf: array<Byte>, lo: nat, hi: nat, df: DispFormat, x: nat)
    requires lo <= hi <= outbuf.Length && x < Pow(Base(df), hi - lo)
    modifies outbuf
    ensures outbuf[lo..hi] == Printed(x, hi - lo, df)
    ensures outbuf[..lo] == old(outbuf[..lo]) && outbuf[hi..] == old(outbuf[hi..])
  {
    hide Pow, Digits, DigitByte, Base;
    var base, q := Base(df), x;
    ghost var ds := Digits(x, hi - lo, base);
    var i := hi;
    while i > lo
      invariant lo <= i <= hi && 0 <= q < Pow(base, i - lo)
      invariant Digits(q, i - lo, base) == ds[..i - lo]
      invariant forall k :: i <= k < hi ==> outbuf[k] == DigitByte(df, ds[k - lo])
      invariant outbuf[..lo] == old(outbuf[..lo]) && outbuf[hi..] == old(outbuf[hi..])
    {
      i := i - 1;
      var r := q % base;
      LastDigit(q, i - lo, base);
      q := q / base;
      outbuf[i] := DigitByte(df, r);
    }
    assert outbuf[lo..hi] == Printed(x, hi - lo, df);
  }

  /** `memchr` in the digit table. */
  method FindDigit(df: DispFormat, c: Byte) returns (d: int)
    ensures 0 <= d ==> d < Base(df) && DigitByte(df, d) == c
    ensures d < 0 ==> forall e: nat :: e < Base(df) ==> DigitByte(df, e) != c
  {
    hide DigitByte, Base;
    d := 0;
    while d < Base(df)
      invariant 0 <= d <= Base(df)
      invariant forall e: nat :: e < d ==> DigitByte(df, e) != c
    {
      if DigitByte(df, d) == c { return; }
      d := d + 1;
    }
    d := -1;
  }

  lemma EmptyValue(b: nat)
    ensures Value([], b) == 0
  {
  }

  /** A character outside the table is in no printed number, and every byte is a
      raw digit. */
  lemma UnknownDigit(s: seq<Byte>, i: nat, df: DispFormat)
    requires i < |s| && forall e: nat :: e < Base(df) ==> DigitByte(df, e) != s[i]
    ensures df != Bin
    ensures forall v: nat :: v < Pow(Base(df), |s|) ==> Printed(v, |s|, df) != s
  {
    assert DigitByte(Bin, s[i]) == s[i];
    forall v: nat | v < Pow(Base(df), |s|)
      ensures Printed(v, |s|, df) != s
    {
      assert Printed(v, |s|, df)[i] == DigitByte(df, Digits(v, |s|, Base(df))[i]);
    }
  }

  /** Scanning succeeds exactly on printed numbers and returns the number. */
  method DeserializeMpi(buf: array<Byte>, inlen: nat, df: DispFormat) returns (ok: bool, x: nat)
    requires inlen <= buf.Length
    ensures ok ==> x < Pow(Base(df), inlen) && Printed(x, inlen, df) == buf[..inlen]
    ensures !ok ==> forall v: nat :: v < Pow(Base(df), inlen) ==> Printed(v, inlen, df) != buf[..inlen]
    ensures df == Bin ==> ok
  {
    hide Pow, Digits, DigitByte, Base, Value;
    var base := Base(df);
    ghost var ds: seq<nat> := [];
    x := 0;
    assert Value(ds, base) == 0 by { EmptyValue(base); }
    var i := 0;
    while i < inlen
      invariant 0 <= i <= inlen && |ds| == i && AllDigits(ds, base)
      invariant forall k :: 0 <= k < i ==> DigitByte(df, ds[k]) == buf[k]
      invariant x == Value(ds, base)
    {
      var d := FindDigit(df, buf[i]);
      if d < 0 {
        UnknownDigit(buf[..inlen], i, df);
        return false, 0;
      }
      x := x * base;
      x := x + d;
      AppendDigit(ds, d, base);
      ds := ds + [d];
      i := i + 1;
    }
    DigitsOfValue(ds, base);
    assert buf[..inlen] == Printed(x, inlen, df);
    ok := true;
  }
}
