/** seccure/protocol.c: printed public keys and ECDSA. */
module Protocol {
  import opened Bytes
  import opened ModArith
  import opened Primes
  import opened Serialize
  import opened Curve
  import opened Ecc

  /** `struct curve_params` as `load_curve` fills it in for one text format. */
  datatype CurveParams = CurveParams(dp: Domain, format: DispFormat, pkLenBin: nat, pkLenCompact: nat)

  ghost predicate ValidParams(cp: CurveParams)
  {
    && ValidDomain(cp.dp)
    && cp.format != Bin
    && LeastLength(2 * cp.dp.m - 1, cp.pkLenBin, Base(Bin))
    && LeastLength(2 * cp.dp.m - 1, cp.pkLenCompact, Base(cp.format))
  }

  function KeyLength(df: DispFormat, cp: CurveParams): nat
  {
    if df != Bin then cp.pkLenCompact else cp.pkLenBin
  }

  /** x, or x + m for an odd ordinate. */
  function Compressed(p: Point, dp: Domain): (n: int)
  {
    if p.y % 2 == 1 then p.x + dp.m else p.x
  }

  lemma CompressedFits(p: Point, df: DispFormat, cp: CurveParams)
    requires ValidParams(cp) && Reduced(p, cp.dp) && (df == Bin || df == cp.format)
    ensures 0 <= Compressed(p, cp.dp) < Pow(Base(df), KeyLength(df, cp))
  {
  }

  ghost function PrintedKey(p: Point, df: DispFormat, cp: CurveParams): seq<Byte>
    requires ValidParams(cp) && Reduced(p, cp.dp) && (df == Bin || df == cp.format)
  {
    CompressedFits(p, df, cp);
    Printed(Compressed(p, cp.dp), KeyLength(df, cp), df)
  }

  /** What a printed key says: it is the text of a number below 2m, whose residue
      is the abscissa and whose upper half stands for odd ordinates. */
  lemma PrintedKeySays(p: Point, df: DispFormat, cp: CurveParams) returns (n: nat)
    requires ValidParams(cp) && Reduced(p, cp.dp) && (df == Bin || df == cp.format)
    ensures PrintedKey(p, df, cp) == Printed(n, KeyLength(df, cp), df) && n < Pow(Base(df), KeyLength(df, cp))
    ensures n < 2 * cp.dp.m && n % cp.dp.m == p.x && (n >= cp.dp.m <==> p.y % 2 == 1)
  {
    CompressedFits(p, df, cp);
    hide Printed, Pow, LeastLength, Base;
    n := Compressed(p, cp.dp);
    AboveModulus(p.x, cp.dp.m);
  }

  lemma AboveModulus(x: int, m: int)
    requires 0 <= x < m
    ensures x % m == x && (x + m) % m == x
  {
    DivUnique(x, m, 0, x);
    DivUnique(x + m, m, 1, x);
  }

  /** No two finite points print alike. */
  lemma PrintedKeyInjective(p: Point, q: Point, df: DispFormat, cp: CurveParams)
    requires ValidParams(cp) && Finite(p, cp.dp) && Finite(q, cp.dp) && (df == Bin || df == cp.format)
    requires PrintedKey(p, df, cp) == PrintedKey(q, df, cp)
    ensures p == q
  {
    CompressedFits(p, df, cp);
    CompressedFits(q, df, cp);
    PrintedInjective(Compressed(p, cp.dp), Compressed(q, cp.dp), KeyLength(df, cp), df);
    CompressionDetermines(p, q, cp.dp);
  }

  method CompressToString(buf: array<Byte>, df: DispFormat, p: AffinePoint, cp: CurveParams)
    requires ValidParams(cp) && Reduced(p.View(), cp.dp) && (df == Bin || df == cp.format)
    requires KeyLength(df, cp) <= buf.Length
    modifies buf
    ensures buf[..KeyLength(df, cp)] == PrintedKey(p.View(), df, cp)
    ensures buf[KeyLength(df, cp)..] == old(buf[KeyLength(df, cp)..])
  {
    var outlen := KeyLength(df, cp);
    CompressedFits(p.View(), df, cp);
    hide Printed, Pow, LeastLength, ValidDomain, Base;
    var yflag := PointCompress(p);
    if yflag {
      var x := p.x + cp.dp.m;
      SerializeMpi(buf, outlen, df, x);
    } else {
      SerializeMpi(buf, outlen, df, p.x);
    }
  }

  /** The exact inverse of `CompressToString` on finite points, and a rejection
      of every other string. */
  method DecompressFromString(p: AffinePoint, buf: array<Byte>, df: DispFormat, cp: CurveParams) returns (res: bool)
    requires ValidParams(cp) && (df == Bin || df == cp.format)
    requires KeyLength(df, cp) <= buf.Length
    modifies p
    ensures res ==> Finite(p.View(), cp.dp) && PrintedKey(p.View(), df, cp) == buf[..KeyLength(df, cp)]
    ensures !res ==> unchanged(p)
    ensures !res ==> forall q: Point :: Finite(q, cp.dp) ==> PrintedKey(q, df, cp) != buf[..KeyLength(df, cp)]
  {
    var dp, inlen := cp.dp, KeyLength(df, cp);
    ghost var s := buf[..inlen];
    var x;
    res, x := DeserializeMpi(buf, inlen, df);
    if res {
      var n := x;
      var yflag := x >= dp.m;
      if yflag {
        x := x - dp.m;
      }
      res := 0 <= x < dp.m;
      if res {
        res := PointDecompress(p, x, yflag, dp);
      }
      KeyNumber(n, res, yflag, p.View(), df, cp);
    } else {
      NotAKey(s, df, cp);
    }
  }

  lemma NotAKey(s: seq<Byte>, df: DispFormat, cp: CurveParams)
    requires ValidParams(cp) && (df == Bin || df == cp.format)
    requires forall v: nat :: v < Pow(Base(df), KeyLength(df, cp)) ==> Printed(v, KeyLength(df, cp), df) != s
    ensures forall q: Point :: Finite(q, cp.dp) ==> PrintedKey(q, df, cp) != s
  {
    forall q: Point | Finite(q, cp.dp)
      ensures PrintedKey(q, df, cp) != s
    {
      CompressedFits(q, df, cp);
    }
  }

  /** The scanned number n is the compressed form of the point found, or of none. */
  lemma KeyNumber(n: nat, res: bool, yflag: bool, p: Point, df: DispFormat, cp: CurveParams)
    requires ValidParams(cp) && (df == Bin || df == cp.format)
    requires n < Pow(Base(df), KeyLength(df, cp)) && (yflag <==> n >= cp.dp.m)
    requires var x := if yflag then n - cp.dp.m else n;
             && (res ==> 0 <= x < cp.dp.m && Finite(p, cp.dp) && p.x == x && (p.y % 2 == 1) == yflag)
             && (!res && 0 <= x < cp.dp.m ==> forall q: Point :: Finite(q, cp.dp) && q.x == x ==>
                (q.y % 2 == 1) != yflag)
    ensures res ==> PrintedKey(p, df, cp) == Printed(n, KeyLength(df, cp), df)
    ensures !res ==> forall q: Point :: Finite(q, cp.dp) ==> PrintedKey(q, df, cp) != Printed(n, KeyLength(df, cp), df)
  {
    if !res {
      forall q: Point | Finite(q, cp.dp)
        ensures PrintedKey(q, df, cp) != Printed(n, KeyLength(df, cp), df)
      {
        CompressedFits(q, df, cp);
        if PrintedKey(q, df, cp) == Printed(n, KeyLength(df, cp), df) {
          PrintedInjective(Compressed(q, cp.dp), n, KeyLength(df, cp), df);
          assert false;
        }
      }
    }
  }
}
