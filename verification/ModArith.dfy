/** Congruence modulo m, and the ring facts every seccure module leans on.

    `gcry_mpi_addm`, `subm`, `mulm` and `powm` reduce into [0, m); here each is
    congruent to the plain integer expression, so an identity between field
    elements is proved as an identity between integer polynomials and closed by
    one of the `Combine` lemmas, which take the cofactors of the hypotheses.
 */
module ModArith {

  predicate Cong(a: int, b: int, m: int)
    requires m > 0
  {
    (a - b) % m == 0
  }

  lemma MultipleBound(k: int, m: int)
    requires m > 0
    ensures k >= 1 ==> k * m >= m
    ensures k <= -1 ==> k * m <= -m
  {
  }

  lemma MulModZero(k: int, m: int)
    requires m > 0
    ensures (k * m) % m == 0
  {
    var q, r := (k * m) / m, (k * m) % m;
    assert (k - q) * m == r;
    MultipleBound(k - q, m);
  }

  lemma CongWitness(a: int, b: int, m: int) returns (k: int)
    requires m > 0 && Cong(a, b, m)
    ensures a - b == k * m
  {
    k := (a - b) / m;
  }

  lemma CongFromWitness(a: int, b: int, m: int, k: int)
    requires m > 0 && a - b == k * m
    ensures Cong(a, b, m)
  {
    MulModZero(k, m);
  }

  lemma Combine1(m: int, e: int, f: int, c: int, a: int, b: int)
    requires m > 0 && Cong(a, b, m)
    requires e - f == c * (a - b)
    ensures Cong(e, f, m)
  {
    var k := CongWitness(a, b, m);
    assert e - f == (c * k) * m;
    CongFromWitness(e, f, m, c * k);
  }

  lemma Combine2(m: int, e: int, f: int, c1: int, a1: int, b1: int, c2: int, a2: int, b2: int)
    requires m > 0 && Cong(a1, b1, m) && Cong(a2, b2, m)
    requires e - f == c1 * (a1 - b1) + c2 * (a2 - b2)
    ensures Cong(e, f, m)
  {
    var k1 := CongWitness(a1, b1, m);
    var k2 := CongWitness(a2, b2, m);
    assert e - f == (c1 * k1 + c2 * k2) * m;
    CongFromWitness(e, f, m, c1 * k1 + c2 * k2);
  }

  lemma Combine3(m: int, e: int, f: int, c1: int, a1: int, b1: int, c2: int, a2: int, b2: int, c3: int, a3: int,
                 b3: int)
    requires m > 0 && Cong(a1, b1, m) && Cong(a2, b2, m) && Cong(a3, b3, m)
    requires e - f == c1 * (a1 - b1) + c2 * (a2 - b2) + c3 * (a3 - b3)
    ensures Cong(e, f, m)
  {
    var k1 := CongWitness(a1, b1, m);
    var k2 := CongWitness(a2, b2, m);
    var k3 := CongWitness(a3, b3, m);
    assert e - f == (c1 * k1 + c2 * k2 + c3 * k3) * m;
    CongFromWitness(e, f, m, c1 * k1 + c2 * k2 + c3 * k3);
  }

  lemma Combine4(m: int, e: int, f: int, c1: int, a1: int, b1: int, c2: int, a2: int, b2: int,
                 c3: int, a3: int, b3: int, c4: int, a4: int, b4: int)
    requires m > 0 && Cong(a1, b1, m) && Cong(a2, b2, m) && Cong(a3, b3, m) && Cong(a4, b4, m)
    requires e - f == c1 * (a1 - b1) + c2 * (a2 - b2) + c3 * (a3 - b3) + c4 * (a4 - b4)
    ensures Cong(e, f, m)
  {
    hide Cong;
    var u, v := c1 * (a1 - b1) + c2 * (a2 - b2), c3 * (a3 - b3) + c4 * (a4 - b4);
    Combine2(m, u, 0, c1, a1, b1, c2, a2, b2);
    Combine2(m, v, 0, c3, a3, b3, c4, a4, b4);
    Combine2(m, e, f, 1, u, 0, 1, v, 0);
  }

  lemma Combine5(m: int, e: int, f: int, c1: int, a1: int, b1: int, c2: int, a2: int, b2: int,
                 c3: int, a3: int, b3: int, c4: int, a4: int, b4: int, c5: int, a5: int, b5: int)
    requires m > 0 && Cong(a1, b1, m) && Cong(a2, b2, m) && Cong(a3, b3, m) && Cong(a4, b4, m) && Cong(a5, b5, m)
    requires
      e - f == c1 * (a1 - b1) + c2 * (a2 - b2) + c3 * (a3 - b3) + c4 * (a4 - b4) + c5 * (a5 - b5)
    ensures Cong(e, f, m)
  {
    hide Cong;
    var u, v := c1 * (a1 - b1) + c2 * (a2 - b2) + c3 * (a3 - b3), c4 * (a4 - b4) + c5 * (a5 - b5);
    Combine3(m, u, 0, c1, a1, b1, c2, a2, b2, c3, a3, b3);
    Combine2(m, v, 0, c4, a4, b4, c5, a5, b5);
    Combine2(m, e, f, 1, u, 0, 1, v, 0);
  }

  lemma Combine6(m: int, e: int, f: int, c1: int, a1: int, b1: int, c2: int, a2: int, b2: int,
                 c3: int, a3: int, b3: int, c4: int, a4: int, b4: int, c5: int, a5: int, b5: int,
                 c6: int, a6: int, b6: int)
    requires m > 0 && Cong(a1, b1, m) && Cong(a2, b2, m) && Cong(a3, b3, m)
    requires Cong(a4, b4, m) && Cong(a5, b5, m) && Cong(a6, b6, m)
    requires
      e - f == c1 * (a1 - b1) + c2 * (a2 - b2) + c3 * (a3 - b3) + c4 * (a4 - b4) + c5 * (a5 - b5) + c6 * (a6 - b6)
    ensures Cong(e, f, m)
  {
    hide Cong;
    var u := c1 * (a1 - b1) + c2 * (a2 - b2) + c3 * (a3 - b3);
    var v := c4 * (a4 - b4) + c5 * (a5 - b5) + c6 * (a6 - b6);
    Combine3(m, u, 0, c1, a1, b1, c2, a2, b2, c3, a3, b3);
    Combine3(m, v, 0, c4, a4, b4, c5, a5, b5, c6, a6, b6);
    Combine2(m, e, f, 1, u, 0, 1, v, 0);
  }

  lemma CloseNotCong(a: int, b: int, m: int)
    requires m > 0 && a != b && -m < a - b < m
    ensures !Cong(a, b, m)
  {
    if Cong(a, b, m) {
      var k := CongWitness(a, b, m);
      MultipleBound(k, m);
    }
  }

  /** Congruent values have the same residue, and conversely. */
  lemma CongIffSameResidue(a: int, b: int, m: int)
    requires m > 0
    ensures Cong(a, b, m) <==> a % m == b % m
  {
    var qa, qb := a / m, b / m;
    assert a - b == (qa - qb) * m + (a % m - b % m);
    if Cong(a, b, m) {
      var k := CongWitness(a, b, m);
      var d := a % m - b % m;
      assert d == (k - (qa - qb)) * m;
      MultipleBound(k - (qa - qb), m);
    } else if a % m == b % m {
      CongFromWitness(a, b, m, qa - qb);
    }
  }

  lemma CongResidue(a: int, m: int)
    requires m > 0
    ensures Cong(a % m, a, m)
  {
    assert a % m - a == (-(a / m)) * m;
    CongFromWitness(a % m, a, m, -(a / m));
  }

  lemma SmallResidue(a: int, m: int)
    requires 0 <= a < m
    ensures a % m == a
  {
  }

  lemma DivUnique(e: int, d: int, q: int, r: int)
    requires d > 0 && 0 <= r < d && e == q * d + r
    ensures e / d == q && e % d == r
  {
    assert (e / d - q) * d == r - e % d;
    MultipleBound(e / d - q, d);
  }

  lemma DivDiv(x: nat, b: nat, w: nat)
    requires b > 0 && w > 0
    ensures b * w > 0 && x / (b * w) == x / b / w
  {
    var y := x / b;
    DivDivIdentity(x, b, w, y, x % b, y / w, y % w);
    DivUnique(x, b * w, y / w, b * (y % w) + x % b);
  }

  lemma DivDivIdentity(x: nat, b: nat, w: nat, y: int, s: nat, q: int, r: nat)
    requires b > 0 && w > 0 && s < b && r < w && x == b * y + s && y == q * w + r
    ensures b * w > 0 && x == q * (b * w) + (b * r + s) && 0 <= b * r + s < b * w
  {
    assert b * (q * w + r) == q * (b * w) + b * r;
    assert b * (r + 1) <= b * w;
  }

  lemma QuotientNonnegative(e: nat, d: int)
    requires d > 0
    ensures e / d >= 0
  {
    MultipleBound(e / d, d);
  }
}
