/** seccure/numtheory.c: squareness and square roots modulo an odd prime. */
module NumTheory {
  import opened Bytes
  import opened ModArith
  import opened Primes
  import opened Mpi

  ghost predicate IsRoot(z: int, a: int, p: int)
    requires p > 0
  {
    0 <= z < p && Cong(z * z, a, p)
  }

  /** What a square root modulo p promises: existence, not a recipe. */
  ghost predicate HasRoot(a: int, p: int)
    requires p > 0
  {
    exists z :: IsRoot(z, a, p)
  }

  lemma ResidueOne(r: int, v: int, m: int)
    requires m > 1 && 0 <= r < m && Cong(r, v, m)
    ensures r == 1 <==> Cong(v, 1, m)
  {
    CongIffSameResidue(r, v, m);
    CongIffSameResidue(v, 1, m);
    SmallResidue(r, m);
    SmallResidue(1, m);
  }

  /** The test the code makes; `IsSquareIffRoot` says what it decides. */
  predicate PassesEuler(a: int, p: int)
    requires p > 1
  {
    a == 0 || PowMod(a, p / 2, p) == 1
  }

  /** A non-residue below p, where the search of `mod_root` stops at the latest. */
  lemma NonResidueExists(p: int) returns (n: int)
    requires IsPrime(p) && p > 2
    ensures 2 <= n < p && !PassesEuler(n, p)
  {
    OddPrime(p);
    n := SomePowerIsNotOne(p, p / 2);
    ResidueOne(PowMod(n, p / 2, p), Pow(n, p / 2), p);
  }

  /** What Tonelli-Shanks keeps between rounds: x is a root of a*b, b lies in the
      subgroup of order 2^(r-1) and y generates the one of order 2^r. */
  ghost predicate RootInvariant(x: int, a: int, b: int, y: int, r: nat, p: int)
    requires p > 1
  {
    && r >= 1
    && 0 <= x < p && 0 <= b < p && 0 <= y < p
    && Cong(x * x, a * b, p)
    && Cong(Pow(b, Pow2(r - 1)), 1, p)
    && Cong(Pow(y, Pow2(r - 1)), -1, p)
  }

  /** p - 1 = q * 2^r with q odd: `for(r = 0; !test_bit(q, r); r++); q >>= r`. */
  method SplitPowerOfTwo(n: int) returns (q: int, r: nat)
    requires n > 0
    ensures q > 0 && q % 2 == 1 && n == q * Pow2(r)
    ensures n % 2 == 0 ==> r >= 1
  {
    q, r := n, 0;
    while q % 2 == 0
      invariant q > 0 && n == q * Pow2(r) && (r == 0 ==> q == n)
      decreases q
    {
      q, r := q / 2, r + 1;
      assert Pow2(r) == 2 * Pow2(r - 1);
    }
  }

  lemma NonResidueGenerates(n: int, q: nat, r: nat, y: int, p: int)
    requires IsPrime(p) && p > 2 && 0 < n < p && !PassesEuler(n, p)
    requires r >= 1 && p - 1 == q * Pow2(r) && y == PowMod(n, q, p)
    ensures Cong(Pow(y, Pow2(r - 1)), -1, p)
  {
    OddPrime(p);
    var e := Pow2(r - 1);
    assert p / 2 == q * e by { HalfOrder(p, q, r); }
    CloseNotCong(n, 0, p);
    EulerPlusMinusOne(n, p);
    ResidueOne(PowMod(n, p / 2, p), Pow(n, p / 2), p);
    PowMul(n, q, e);
    PowCong(y, Pow(n, q), e, p);
    hide Cong;
    Combine2(p, Pow(y, e), -1, 1, Pow(y, e), Pow(n, p / 2), 1, Pow(n, p / 2), -1);
  }

  /** x = a * a^((q-1)/2) and b = a^q open the loop. */
  lemma StartingRoot(a: int, q: nat, r: nat, b0: int, x: int, b: int, p: int)
    requires IsPrime(p) && p > 2 && 0 < a < p && PassesEuler(a, p)
    requires r >= 1 && q % 2 == 1 && p - 1 == q * Pow2(r)
    requires b0 == PowMod(a, q / 2, p) && x == MulMod(a, b0, p) && b == MulMod(b0, x, p)
    ensures Cong(x * x, a * b, p)
    ensures Cong(Pow(b, Pow2(r - 1)), 1, p)
  {
    OddPrime(p);
    var e := Pow2(r - 1);
    assert p / 2 == q * e by { HalfOrder(p, q, r); }
    ResidueOne(PowMod(a, p / 2, p), Pow(a, p / 2), p);
    hide Cong, PowMod, MulMod;
    StartingIdentity(a, b0, x, b);
    Combine2(p, x * x, a * b, x, x, a * b0, -a, b, b0 * x);
    StartingPower(a, q, b0, x, b, p);
    PowCong(b, Pow(a, q), e, p);
    PowMul(a, q, e);
    Combine2(p, Pow(b, e), 1, 1, Pow(b, e), Pow(a, p / 2), 1, Pow(a, p / 2), 1);
  }

  lemma StartingIdentity(a: int, b0: int, x: int, b: int)
    ensures x * x - a * b == x * (x - a * b0) + -a * (b - b0 * x)
  {
  }

  lemma HalfOrder(p: int, q: int, r: nat)
    requires p % 2 == 1 && r >= 1 && p - 1 == q * Pow2(r)
    ensures p / 2 == q * Pow2(r - 1)
  {
    assert q * Pow2(r) == 2 * (q * Pow2(r - 1));
  }

  lemma StartingPower(a: int, q: nat, b0: int, x: int, b: int, p: int)
    requires p > 1 && q % 2 == 1
    requires Cong(b0, Pow(a, q / 2), p) && Cong(x, a * b0, p) && Cong(b, b0 * x, p)
    ensures Cong(b, Pow(a, q), p)
  {
    hide Cong;
    var h := Pow(a, q / 2);
    assert q == 1 + (q / 2 + q / 2);
    PowAdd(a, q / 2, q / 2);
    assert Pow(a, q) == a * Pow(a, q / 2 + q / 2) == a * (h * h);
    hide Pow;
    StartingPowerIdentity(a, h, b0, x, b);
    Combine3(p, b, a * (h * h), 1, b, b0 * x, b0, x, a * b0, a * (b0 + h), b0, h);
  }

  lemma StartingPowerIdentity(a: int, h: int, b0: int, x: int, b: int)
    ensures b - a * (h * h) == 1 * (b - b0 * x) + b0 * (x - a * b0) + (a * (b0 + h)) * (b0 - h)
  {
    assert (a * (b0 + h)) * (b0 - h) == a * (b0 * b0) - a * (h * h);
    assert b0 * (x - a * b0) == b0 * x - a * (b0 * b0);
  }

  /** Squaring h = b^(2^m). */
  lemma SquaringStep(b: int, m: nat, h: int, h': int, p: int)
    requires p > 1 && Cong(h, Pow(b, Pow2(m)), p) && Cong(h', h * h, p)
    ensures Cong(h', Pow(b, Pow2(m + 1)), p)
  {
    var v := Pow(b, Pow2(m));
    PowAdd(b, Pow2(m), Pow2(m));
    hide Cong;
    Combine2(p, h', v * v, 1, h', h * h, h + v, h, v);
  }

  /** One round: with m least such that b^(2^m) = 1, multiplying by the right
      power of y keeps the invariant at the smaller order m. */
  lemma RoundKeepsInvariant(x: int, a: int, b: int, y: int, r: nat, m: nat, t: int, y': int, x': int, b': int, p: int)
    requires IsPrime(p) && p > 2 && RootInvariant(x, a, b, y, r, p)
    requires 1 <= m < r
    requires Cong(Pow(b, Pow2(m)), 1, p) && !Cong(Pow(b, Pow2(m - 1)), 1, p)
    requires t == PowMod(y, Pow2(r - m - 1), p) && y' == MulMod(t, t, p)
    requires x' == MulMod(x, t, p) && b' == MulMod(b, y', p)
    ensures RootInvariant(x', a, b', y', m, p)
  {
    hide IsPrime, Pow, Cong;
    NewGenerator(y, r, m, t, y', p);
    OrderDrops(b, m, y', b', p);
    RootKept(x, a, b, t, y', x', b', p);
  }

  /** b^e and y'^e are both -1 at e = 2^(m-1), so their product is 1. */
  lemma OrderDrops(b: int, m: nat, y': int, b': int, p: int)
    requires IsPrime(p) && p > 2 && m >= 1 && Cong(b', b * y', p)
    requires Cong(Pow(b, Pow2(m)), 1, p) && !Cong(Pow(b, Pow2(m - 1)), 1, p)
    requires Cong(Pow(y', Pow2(m - 1)), -1, p)
    ensures Cong(Pow(b', Pow2(m - 1)), 1, p)
  {
    hide Cong, IsPrime;
    var e := Pow2(m - 1);
    PowAdd(b, e, e);
    SquareRootOfOne(Pow(b, e), p);
    PowCong(b', b * y', e, p);
    PowProduct(b, y', e);
    Combine3(p, Pow(b', e), 1, 1, Pow(b', e), Pow(b, e) * Pow(y', e),
             Pow(y', e), Pow(b, e), -1, -1, Pow(y', e), -1);
  }

  lemma RootKept(x: int, a: int, b: int, t: int, y': int, x': int, b': int, p: int)
    requires p > 0 && Cong(x * x, a * b, p)
    requires Cong(y', t * t, p) && Cong(x', x * t, p) && Cong(b', b * y', p)
    ensures Cong(x' * x', a * b', p)
  {
    hide Cong;
    RoundIdentity(x, a, b, t, y', x', b');
    Combine4(p, x' * x', a * b', x' + x * t, x', x * t, t * t, x * x, a * b, -(a * b), y', t * t, -a, b', b * y');
  }

  lemma RoundIdentity(x: int, a: int, b: int, t: int, y': int, x': int, b': int)
    ensures x' * x' - a * b'
      == (x' + x * t) * (x' - x * t) + (t * t) * (x * x - a * b) + -(a * b) * (y' - t * t) + -a * (b' - b * y')
  {
    assert (x' + x * t) * (x' - x * t) == x' * x' - (x * t) * (x * t);
    assert (x * t) * (x * t) == (t * t) * (x * x);
    assert (t * t) * (x * x - a * b) == (t * t) * (x * x) - (t * t) * (a * b);
    assert (a * b) * (t * t) == (t * t) * (a * b);
    assert a * (b * y') == (a * b) * y';
  }

  lemma NewGenerator(y: int, r: nat, m: nat, t: int, y': int, p: int)
    requires p > 1 && 1 <= m < r && Cong(Pow(y, Pow2(r - 1)), -1, p)
    requires t == PowMod(y, Pow2(r - m - 1), p) && y' == MulMod(t, t, p)
    ensures Cong(Pow(y', Pow2(m - 1)), -1, p)
  {
    var e := Pow2(m - 1);
    SquaringStep(y, r - m - 1, t, y', p);
    PowCong(y', Pow(y, Pow2(r - m)), e, p);
    PowMul(y, Pow2(r - m), e);
    Pow2Add(r - m, m - 1);
    hide Cong;
    Combine2(p, Pow(y', e), -1, 1, Pow(y', e), Pow(y, Pow2(r - 1)), 1, Pow(y, Pow2(r - 1)), -1);
  }

  // ------------------------------------ what Euler's criterion decides

  lemma NoRootUnlessEuler(a: int, p: int)
    requires IsPrime(p) && p > 2 && 0 < a < p && !PassesEuler(a, p)
    ensures !HasRoot(a, p)
  {
    if HasRoot(a, p) {
      var z :| IsRoot(z, a, p);
      CloseNotCong(a, 0, p);
      SquarePower(z, a, p);
      ResidueOne(PowMod(a, p / 2, p), Pow(a, p / 2), p);
    }
  }

  /** The least m with b^(2^m) = 1, at most as large as a given one. */
  lemma {:induction false} LeastExponent(b: int, k: nat, p: int) returns (m: nat)
    requires p > 1 && !Cong(b, 1, p) && Cong(Pow(b, Pow2(k)), 1, p)
    ensures 1 <= m <= k && Cong(Pow(b, Pow2(m)), 1, p) && !Cong(Pow(b, Pow2(m - 1)), 1, p)
    decreases k
  {
    assert Pow(b, Pow2(0)) == b * Pow(b, 0) == b;
    hide Cong, Pow, Pow2;
    if Cong(Pow(b, Pow2(k - 1)), 1, p) {
      m := LeastExponent(b, k - 1, p);
    } else {
      m := k;
    }
  }

  /** The rounds of the algorithm run to their end: the invariant promises a root. */
  lemma {:induction false} InvariantGivesRoot(x: int, a: int, b: int, y: int, r: nat, p: int)
    requires IsPrime(p) && p > 2 && 0 <= a < p && RootInvariant(x, a, b, y, r, p)
    ensures HasRoot(a, p)
    decreases r
  {
    hide IsPrime, Pow, Pow2, PowMod, MulMod, Cong;
    if b == 1 {
      assert IsRoot(x, a, p);
    } else {
      CloseNotCong(b, 1, p);
      var m := LeastExponent(b, r - 1, p);
      var t := PowMod(y, Pow2(r - m - 1), p);
      var y' := MulMod(t, t, p);
      RoundKeepsInvariant(x, a, b, y, r, m, t, y', MulMod(x, t, p), MulMod(b, y', p), p);
      InvariantGivesRoot(MulMod(x, t, p), a, MulMod(b, y', p), y', m, p);
    }
  }

  lemma {:induction false} OddPart(n: int) returns (q: nat, r: nat)
    requires n > 0
    ensures q % 2 == 1 && n == q * Pow2(r) && (n % 2 == 0 ==> r >= 1)
  {
    if n % 2 == 1 {
      q, r := n, 0;
    } else {
      q, r := OddPart(n / 2);
      r := r + 1;
      assert Pow2(r) == 2 * Pow2(r - 1);
    }
  }

  lemma EulerGivesRoot(a: int, p: int)
    requires IsPrime(p) && p > 2 && 0 < a < p && PassesEuler(a, p)
    ensures HasRoot(a, p)
  {
    hide IsPrime, Pow, Pow2, PowMod, MulMod, Cong, PassesEuler;
    OddPrime(p);
    var q, r := OddPart(p - 1);
    var n := NonResidueExists(p);
    var y, b0 := PowMod(n, q, p), PowMod(a, q / 2, p);
    NonResidueGenerates(n, q, r, y, p);
    var x := MulMod(a, b0, p);
    var b := MulMod(b0, x, p);
    StartingRoot(a, q, r, b0, x, b, p);
    InvariantGivesRoot(x, a, b, y, r, p);
  }

  /** Euler's criterion decides whether there is a square root. */
  lemma IsSquareIffRoot(a: int, p: int)
    requires IsPrime(p) && p > 2 && 0 <= a < p
    ensures PassesEuler(a, p) <==> HasRoot(a, p)
  {
    hide IsPrime, Pow, PowMod;
    if a == 0 {
      assert IsRoot(0, a, p);
    } else if PassesEuler(a, p) {
      EulerGivesRoot(a, p);
    } else {
      NoRootUnlessEuler(a, p);
    }
  }

  /** `mod_issquare`: whether there is a square root, for every odd prime. */
  method ModIsSquare(a: int, p: int) returns (res: bool)
    requires IsPrime(p) && p > 2 && 0 <= a < p
    ensures res <==> HasRoot(a, p)
    ensures res <==> PassesEuler(a, p)
  {
    hide IsPrime, HasRoot, PowMod;
    IsSquareIffRoot(a, p);
    if a != 0 {
      var p1 := p / 2;
      var p2 := PowMod(a, p1, p);
      res := p2 == 1;
    } else {
      res := true;
    }
  }

  /** Tonelli-Shanks. The caller's `x` is an output only: it is 0 in a fresh
      integer and untouched when no root exists. */
  method ModRoot(a: int, p: int) returns (found: bool, x: int)
    requires IsPrime(p) && p > 2 && 0 <= a < p
    ensures found <==> HasRoot(a, p)
    ensures found ==> IsRoot(x, a, p)
    ensures !found ==> x == 0
    ensures a == 0 ==> x == 0
  {
    hide Cong, IsPrime, PassesEuler, Pow, Pow2, PowMod, MulMod;
    x := 0;
    if a == 0 {
      CongFromWitness(0 * 0, 0, p, 0);
      assert IsRoot(0, a, p);
      return true, 0;
    }
    var square := ModIsSquare(a, p);
    if !square {
      return false, 0;
    }
    var n := 2;
    ghost var bound := NonResidueExists(p);
    var again := ModIsSquare(n, p);
    while again
      invariant 2 <= n <= bound && (again <==> PassesEuler(n, p))
      decreases bound - n
    {
      n := n + 1;
      again := ModIsSquare(n, p);
    }
    var q, r := SplitPowerOfTwo(p - 1);
    OddPrime(p);
    var y := PowMod(n, q, p);
    NonResidueGenerates(n, q, r, y, p);
    var h := q / 2;
    var b := PowMod(a, h, p);
    ghost var b0 := b;
    x := MulMod(a, b, p);
    b := MulMod(b, x, p);
    StartingRoot(a, q, r, b0, x, b, p);
    while b != 1
      invariant RootInvariant(x, a, b, y, r, p)
      decreases r
    {
      ResidueOne(b, b, p) by { CongFromWitness(b, b, p, 0); }
      var m := LeastOrder(b, r, p);
      h := Pow2(r - m - 1);
      var t := PowMod(y, h, p);
      ghost var x0, b1, y0, r0 := x, b, y, r;
      y := MulMod(t, t, p);
      r := m;
      x := MulMod(x, t, p);
      b := MulMod(b, y, p);
      RoundKeepsInvariant(x0, a, b1, y0, r0, m, t, y, x, b, p);
    }
    found := true;
    assert IsRoot(x, a, p);
  }

  /** The inner loop: m is least with b^(2^m) = 1; it stops before r. */
  method LeastOrder(b: int, r: nat, p: int) returns (m: nat)
    requires p > 1 && r >= 1 && !Cong(b, 1, p) && Cong(Pow(b, Pow2(r - 1)), 1, p)
    ensures 1 <= m < r
    ensures Cong(Pow(b, Pow2(m)), 1, p) && !Cong(Pow(b, Pow2(m - 1)), 1, p)
  {
    assert Pow(b, Pow2(0)) == b * Pow(b, 0) == b;
    assert r >= 2;
    var h := MulMod(b, b, p);
    CongFromWitness(b, b, p, 0);
    SquaringStep(b, 0, b, h, p);
    m := 1;
    ResidueOne(h, Pow(b, Pow2(m)), p);
    while h != 1
      invariant 1 <= m < r && 0 <= h < p
      invariant Cong(h, Pow(b, Pow2(m)), p)
      invariant h == 1 <==> Cong(Pow(b, Pow2(m)), 1, p)
      invariant !Cong(Pow(b, Pow2(m - 1)), 1, p)
      decreases r - m
    {
      ghost var h0 := h;
      h := MulMod(h, h, p);
      SquaringStep(b, m, h0, h, p);
      m := m + 1;
      ResidueOne(h, Pow(b, Pow2(m)), p);
    }
  }
}
