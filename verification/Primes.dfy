/** Primes, powers and the two classical theorems behind modular square roots:
    Fermat's little theorem (through the binomial theorem) and Lagrange's bound
    on the roots of a polynomial modulo a prime, which yields a non-residue. */
module Primes {
  import opened ModArith

  predicate Divides(d: int, n: int)
    requires d > 0
  {
    n % d == 0
  }

  ghost predicate IsPrime(p: int)
  {
    p >= 2 && forall d :: 2 <= d < p ==> !Divides(d, p)
  }

  /** The inverse `gcry_mpi_invm` computes, by the Euclidean recursion. */
  function Inverse(a: int, p: int): (u: int)
    requires IsPrime(p) && 0 < a < p
    ensures 0 <= u < p && Cong(u * a, 1, p)
    decreases a
  {
    if a == 1 then 1 else
      assert p % a != 0 by { assert !Divides(a, p); }
      InverseStep(a, p, Inverse(p % a, p));
      (-(p / a) * Inverse(p % a, p)) % p
  }

  lemma InverseStep(a: int, p: int, v: int)
    requires 0 < a < p && Cong(v * (p % a), 1, p)
    ensures Cong((-(p / a) * v) % p * a, 1, p)
  {
    var q, r := p / a, p % a;
    var u := (-q * v) % p;
    assert p == q * a + r;
    CongResidue(-q * v, p);
    hide Cong;
    InverseIdentity(a, p, q, r, v, u);
    Combine3(p, u * a, 1, a, u, -q * v, 1, v * r, 1, -v, p, 0) by { CongFromWitness(p, 0, p, 1); }
  }

  lemma InverseIdentity(a: int, p: int, q: int, r: int, v: int, u: int)
    requires p == q * a + r
    ensures u * a - 1 == a * (u - -q * v) + 1 * (v * r - 1) + -v * (p - 0)
  {
    assert a * (q * v) == v * (q * a);
  }

  /** Euclid's lemma. */
  lemma PrimeDividesProduct(a: int, b: int, p: int)
    requires IsPrime(p) && Cong(a * b, 0, p)
    ensures Cong(a, 0, p) || Cong(b, 0, p)
  {
    var c := a % p;
    if c != 0 {
      var u := Inverse(c, p);
      CongResidue(a, p);
      // b = u*(a*b) + b*(1 - u*c) + u*b*(c - a)
      Combine3(p, b, 0, u, a * b, 0, -b, u * c, 1, u * b, c, a);
    }
  }

  function Pow(b: int, e: nat): int
  {
    if e == 0 then 1 else b * Pow(b, e - 1)
  }

  lemma {:induction false} PowAdd(b: int, e: nat, f: nat)
    ensures Pow(b, e + f) == Pow(b, e) * Pow(b, f)
  {
    if e != 0 {
      PowAdd(b, e - 1, f);
      assert Pow(b, e + f) == b * Pow(b, e + f - 1) == b * (Pow(b, e - 1) * Pow(b, f));
    }
  }

  lemma {:induction false} PowMul(b: int, e: nat, f: nat)
    ensures Pow(b, e * f) == Pow(Pow(b, e), f)
  {
    if f == 0 {
      assert e * f == 0;
    } else {
      PowMul(b, e, f - 1);
      assert e * f == e + e * (f - 1);
      PowAdd(b, e, e * (f - 1));
    }
  }

  lemma {:induction false} PowProduct(a: int, b: int, e: nat)
    ensures Pow(a * b, e) == Pow(a, e) * Pow(b, e)
  {
    if e != 0 {
      PowProduct(a, b, e - 1);
      assert Pow(a * b, e) == (a * b) * (Pow(a, e - 1) * Pow(b, e - 1)) == (a * Pow(a, e - 1)) * (b * Pow(b, e - 1));
    }
  }

  lemma {:induction false} PowCong(a: int, b: int, e: nat, m: int)
    requires m > 0 && Cong(a, b, m)
    ensures Cong(Pow(a, e), Pow(b, e), m)
  {
    if e != 0 {
      PowCong(a, b, e - 1, m);
      Combine2(m, a * Pow(a, e - 1), b * Pow(b, e - 1),
               Pow(a, e - 1), a, b, b, Pow(a, e - 1), Pow(b, e - 1));
    }
  }

  lemma {:induction false} PowOne(e: nat)
    ensures Pow(1, e) == 1
  {
    if e != 0 { PowOne(e - 1); }
  }

  // ---------------------------------------------------------------- Fermat

  function Choose(n: nat, k: nat): nat
  {
    if k == 0 then 1 else if n == 0 then 0 else Choose(n - 1, k - 1) + Choose(n - 1, k)
  }

  lemma {:induction false} ChooseAbsorb(n: nat, k: nat)
    requires n >= 1 && k >= 1
    ensures k * Choose(n, k) == n * Choose(n - 1, k - 1)
  {
    if n == 1 {
      if k > 1 { ChooseAboveRow(0, k); ChooseAboveRow(0, k - 1); }
    } else {
      ChooseAbsorb(n - 1, k);
      var a, b := Choose(n - 1, k - 1), Choose(n - 1, k);
      assert k * b == (n - 1) * Choose(n - 2, k - 1);
      if k >= 2 {
        ChooseAbsorb(n - 1, k - 1);
        assert a == Choose(n - 2, k - 2) + Choose(n - 2, k - 1);
        assert (k - 1) * a == (n - 1) * Choose(n - 2, k - 2);
        Collect(n, k, a, b, Choose(n - 2, k - 2), Choose(n - 2, k - 1));
      } else {
        assert Choose(n - 2, 0) == 1;
      }
    }
  }

  lemma Collect(n: int, k: int, a: int, b: int, c: int, d: int)
    requires a == c + d && k * b == (n - 1) * d && (k - 1) * a == (n - 1) * c
    ensures k * (a + b) == n * a
  {
    assert k * (a + b) == (k - 1) * a + a + k * b;
    assert (n - 1) * c + (n - 1) * d == (n - 1) * (c + d);
  }

  lemma {:induction false} ChooseAboveRow(n: nat, k: nat)
    requires k > n
    ensures Choose(n, k) == 0
  {
    if n != 0 { ChooseAboveRow(n - 1, k - 1); ChooseAboveRow(n - 1, k); }
  }

  /** The first `m` terms of the expansion of (1 + x)^n. */
  function BinomialSum(n: nat, m: nat, x: int): int
  {
    if m == 0 then 0 else BinomialSum(n, m - 1, x) + Choose(n, m - 1) * Pow(x, m - 1)
  }

  lemma {:induction false} BinomialSumStep(n: nat, m: nat, x: int)
    requires n >= 1 && m >= 1
    ensures BinomialSum(n, m, x) == BinomialSum(n - 1, m, x) + x * BinomialSum(n - 1, m - 1, x)
  {
    if m > 1 {
      BinomialSumStep(n, m - 1, x);
      BinomialIdentity(BinomialSum(n - 1, m - 1, x), BinomialSum(n - 1, m - 2, x),
                       Choose(n - 1, m - 2), Choose(n - 1, m - 1), x, Pow(x, m - 2));
    } else {
      assert BinomialSum(n, 0, x) == 0 && BinomialSum(n - 1, 0, x) == 0;
    }
  }

  lemma BinomialIdentity(s: int, t: int, c: int, d: int, x: int, w: int)
    ensures (s + x * t) + (c + d) * (x * w) == (s + d * (x * w)) + x * (t + c * w)
  {
  }

  lemma BinomialLast(s: int, x: int, w: int)
    ensures (1 + x) * s == (s + 0 * w) + x * s
  {
  }

  lemma {:induction false} BinomialTheorem(n: nat, x: int)
    ensures Pow(1 + x, n) == BinomialSum(n, n + 1, x)
  {
    if n == 0 {
      assert BinomialSum(0, 1, x) == BinomialSum(0, 0, x) + Choose(0, 0) * Pow(x, 0);
    } else {
      BinomialTheorem(n - 1, x);
      BinomialSumStep(n, n + 1, x);
      ChooseAboveRow(n - 1, n);
      BinomialLast(BinomialSum(n - 1, n, x), x, Pow(x, n));
    }
  }

  lemma MiddleTermVanishes(p: int, k: int)
    requires IsPrime(p) && 1 <= k < p
    ensures Cong(Choose(p, k), 0, p)
  {
    hide Cong;
    ChooseAbsorb(p, k);
    CongFromWitness(k * Choose(p, k), 0, p, Choose(p - 1, k - 1));
    PrimeDividesProduct(k, Choose(p, k), p);
    CloseNotCong(k, 0, p);
  }

  lemma {:induction false} MiddleTermsVanish(p: int, m: nat, x: int)
    requires IsPrime(p) && 1 <= m <= p
    ensures Cong(BinomialSum(p, m, x), 1, p)
  {
    hide Cong, IsPrime;
    if m == 1 {
      assert BinomialSum(p, 1, x) == BinomialSum(p, 0, x) + Choose(p, 0) * Pow(x, 0) == 1;
      CongFromWitness(BinomialSum(p, 1, x), 1, p, 0);
    } else {
      MiddleTermsVanish(p, m - 1, x);
      MiddleTermVanishes(p, m - 1);
      Combine2(p, BinomialSum(p, m, x), 1, 1, BinomialSum(p, m - 1, x), 1,
               Pow(x, m - 1), Choose(p, m - 1), 0);
    }
  }

  /** Fermat's little theorem, first for every natural number ... */
  lemma {:induction false} FermatPower(a: nat, p: int)
    requires IsPrime(p)
    ensures Cong(Pow(a, p), a, p)
  {
    if a == 0 {
      assert Pow(0, p) == 0 * Pow(0, p - 1) == 0;
      CongFromWitness(0, 0, p, 0);
    } else {
      FermatPower(a - 1, p);
      BinomialTheorem(p, a - 1);
      MiddleTermsVanish(p, p, a - 1);
      ChooseTop(p);
      assert BinomialSum(p, p + 1, a - 1) == BinomialSum(p, p, a - 1) + Choose(p, p) * Pow(a - 1, p);
      Combine2(p, Pow(a, p), a, 1, BinomialSum(p, p, a - 1), 1, 1, Pow(a - 1, p), a - 1);
    }
  }

  lemma {:induction false} ChooseTop(n: nat)
    ensures Choose(n, n) == 1
  {
    if n != 0 { ChooseTop(n - 1); ChooseAboveRow(n - 1, n); }
  }

  /** ... then in the form that inverts exponentiation. */
  lemma Fermat(a: nat, p: int)
    requires IsPrime(p) && !Cong(a, 0, p)
    ensures Cong(Pow(a, p - 1), 1, p)
  {
    FermatPower(a, p);
    assert Pow(a, p) == a * Pow(a, p - 1);
    Combine1(p, a * (Pow(a, p - 1) - 1), 0, 1, Pow(a, p), a);
    PrimeDividesProduct(a, Pow(a, p - 1) - 1, p);
  }

  // ------------------------------------------------ roots of a polynomial

  /** The polynomial with coefficients `c`, lowest first, at `x`. */
  function Eval(c: seq<int>, x: int): int
  {
    if c == [] then 0 else c[0] + x * Eval(c[1..], x)
  }

  function AddScaled(c: seq<int>, r: int, d: seq<int>): (e: seq<int>)
    requires |d| <= |c|
    ensures |e| == |c|
    ensures |d| < |c| ==> e[|c| - 1] == c[|c| - 1]
  {
    if d == [] then c else [c[0] + r * d[0]] + AddScaled(c[1..], r, d[1..])
  }

  lemma {:induction false} AddScaledEval(c: seq<int>, r: int, d: seq<int>, x: int)
    requires |d| <= |c|
    ensures Eval(AddScaled(c, r, d), x) == Eval(c, x) + r * Eval(d, x)
  {
    if d != [] {
      AddScaledEval(c[1..], r, d[1..], x);
      assert AddScaled(c, r, d)[1..] == AddScaled(c[1..], r, d[1..]);
      HornerSum(c[0], r, d[0], x, Eval(c[1..], x), Eval(d[1..], x));
    }
  }

  lemma HornerSum(c: int, r: int, d: int, x: int, u: int, v: int)
    ensures (c + r * d) + x * (u + r * v) == (c + x * u) + r * (d + x * v)
  {
  }

  /** The quotient of c(X) - c(r) by X - r. */
  function Quotient(c: seq<int>, r: int): (q: seq<int>)
    requires c != []
    ensures |q| == |c| - 1
    ensures |c| >= 2 ==> q[|q| - 1] == c[|c| - 1]
  {
    if |c| == 1 then [] else AddScaled(c[1..], r, Quotient(c[1..], r))
  }

  lemma {:induction false} FactorTheorem(c: seq<int>, r: int, x: int)
    requires c != []
    ensures Eval(c, x) - Eval(c, r) == (x - r) * Eval(Quotient(c, r), x)
  {
    if |c| == 1 {
      assert c[1..] == [];
    } else {
      var d := c[1..];
      FactorTheorem(d, r, x);
      AddScaledEval(d, r, Quotient(d, r), x);
      HornerQuotient(x, r, Eval(d, x), Eval(d, r), Eval(Quotient(d, r), x));
    }
  }

  lemma ConstantEval(c: seq<int>, x: int)
    ensures |c| == 1 ==> Eval(c, x) == c[0]
  {
    if |c| == 1 {
      assert c[1..] == [];
      assert Eval(c, x) == c[0] + x * Eval([], x);
    }
  }

  lemma QuotientRoot(c: seq<int>, p: int, r: int, x: int)
    requires IsPrime(p) && c != []
    requires !Cong(x, r, p) && Cong(Eval(c, x), 0, p) && Cong(Eval(c, r), 0, p)
    ensures Cong(Eval(Quotient(c, r), x), 0, p)
  {
    FactorTheorem(c, r, x);
    var y := Eval(Quotient(c, r), x);
    assert Cong((x - r) * y, 0, p) by {
      hide Cong, Eval, Quotient;
      Combine2(p, (x - r) * y, 0, 1, Eval(c, x), 0, -1, Eval(c, r), 0);
    }
    PrimeDividesProduct(x - r, y, p);
  }

  lemma HornerQuotient(x: int, r: int, u: int, v: int, q: int)
    requires u - v == (x - r) * q
    ensures x * u - r * v == (x - r) * (u + r * q)
  {
    assert x * u - r * v == (x - r) * u + r * (u - v);
    assert r * ((x - r) * q) == (x - r) * (r * q);
  }

  /** Lagrange: at most deg(c) pairwise incongruent roots modulo a prime. */
  lemma {:induction false} RootsBound(c: seq<int>, p: int, xs: seq<int>)
    requires IsPrime(p) && c != [] && !Cong(c[|c| - 1], 0, p)
    requires forall i, j :: 0 <= i < j < |xs| ==> !Cong(xs[j], xs[i], p)
    requires forall i :: 0 <= i < |xs| ==> Cong(Eval(c, xs[i]), 0, p)
    ensures |xs| < |c|
    decreases |xs|
  {
    hide Cong;
    if xs != [] {
      var r := xs[0];
      ConstantEval(c, r);
      if |c| >= 2 {
        forall i | 1 <= i < |xs|
          ensures Cong(Eval(Quotient(c, r), xs[i]), 0, p)
        {
          QuotientRoot(c, p, r, xs[i]);
        }
        RootsBound(Quotient(c, r), p, xs[1..]);
      }
    }
  }

  /** X^k - 1. */
  function PowerMinusOne(k: nat): (c: seq<int>)
    requires k >= 1
    ensures |c| == k + 1 && c[k] == 1
  {
    [-1] + Monomial(k - 1)
  }

  function Monomial(k: nat): (c: seq<int>)
    ensures |c| == k + 1 && c[k] == 1
  {
    if k == 0 then [1] else [0] + Monomial(k - 1)
  }

  lemma {:induction false} MonomialEval(k: nat, x: int)
    ensures Eval(Monomial(k), x) == Pow(x, k)
  {
    if k == 0 {
      assert [1][1..] == [];
      assert Eval([1], x) == 1 + x * Eval([], x);
    } else {
      MonomialEval(k - 1, x);
      assert Monomial(k)[1..] == Monomial(k - 1);
    }
  }

  lemma PowerMinusOneEval(k: nat, x: int)
    requires k >= 1
    ensures Eval(PowerMinusOne(k), x) == Pow(x, k) - 1
  {
    MonomialEval(k - 1, x);
    assert PowerMinusOne(k)[1..] == Monomial(k - 1);
  }

  /** Fewer than p - 1 residues satisfy x^k = 1 when 1 <= k < p - 1. */
  lemma SomePowerIsNotOne(p: int, k: nat) returns (n: int)
    requires IsPrime(p) && 1 <= k < p - 1
    ensures 2 <= n < p && !Cong(Pow(n, k), 1, p)
  {
    hide Cong;
    if forall x :: 2 <= x < p ==> Cong(Pow(x, k), 1, p) {
      var c := PowerMinusOne(k);
      var xs := seq(p - 1, i => i + 1);
      forall i | 0 <= i < |xs|
        ensures Cong(Eval(c, xs[i]), 0, p)
      {
        PowerMinusOneEval(k, xs[i]);
        PowOne(k);
        CongFromWitness(1, 1, p, 0);
        Combine1(p, Eval(c, xs[i]), 0, 1, Pow(xs[i], k), 1);
      }
      forall i, j | 0 <= i < j < |xs|
        ensures !Cong(xs[j], xs[i], p)
      {
        CloseNotCong(xs[j], xs[i], p);
      }
      CloseNotCong(1, 0, p);
      RootsBound(c, p, xs);
      assert false;
    }
    n :| 2 <= n < p && !Cong(Pow(n, k), 1, p);
  }

  // ------------------------------------------------ quadratic characters

  lemma SquareRootOfOne(x: int, p: int)
    requires IsPrime(p) && Cong(x * x, 1, p)
    ensures Cong(x, 1, p) || Cong(x, -1, p)
  {
    Combine1(p, (x - 1) * (x + 1), 0, 1, x * x, 1);
    PrimeDividesProduct(x - 1, x + 1, p);
  }

  /** Euler: the (p-1)/2-th power of a unit is 1 or -1. */
  lemma EulerPlusMinusOne(a: nat, p: int)
    requires IsPrime(p) && p > 2 && !Cong(a, 0, p)
    ensures Cong(Pow(a, p / 2), 1, p) || Cong(Pow(a, p / 2), -1, p)
  {
    OddPrime(p);
    Fermat(a, p);
    PowAdd(a, p / 2, p / 2);
    SquareRootOfOne(Pow(a, p / 2), p);
  }

  lemma OddPrime(p: int)
    requires IsPrime(p) && p > 2
    ensures p % 2 == 1 && p - 1 == 2 * (p / 2)
  {
    assert !Divides(2, p);
  }

  /** Euler: a nonzero square has (p-1)/2-th power 1. */
  lemma SquarePower(z: nat, a: int, p: int)
    requires IsPrime(p) && p > 2 && Cong(z * z, a, p) && !Cong(a, 0, p)
    ensures Cong(Pow(a, p / 2), 1, p)
  {
    OddPrime(p);
    if Cong(z, 0, p) {
      Combine2(p, a, 0, -1, z * z, a, z, z, 0);
    }
    Fermat(z, p);
    PowCong(z * z, a, p / 2, p);
    PowProduct(z, z, p / 2);
    PowAdd(z, p / 2, p / 2);
    Combine2(p, Pow(a, p / 2), 1, -1, Pow(z * z, p / 2), Pow(a, p / 2), 1, Pow(z, p - 1), 1);
  }
}
