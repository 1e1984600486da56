/** seccure/ecc.c: point arithmetic updated in place through scratch registers.
    Each routine is proved equal to the formula of module Curve, and the Jacobian
    `pointmul` to the affine double-and-add it replaced. */
module Ecc {
  import opened ModArith
  import opened Primes
  import opened Mpi
  import NumTheory
  import opened Curve

  /** `struct affine_point`. */
  class AffinePoint {
    var x: int
    var y: int

    constructor (x: int, y: int)
      ensures View() == Point(x, y)
    {
      this.x, this.y := x, y;
    }

    function View(): Point
      reads this
    {
      Point(x, y)
    }
  }

  /** `struct jacobian_point`. */
  class JacobianPoint {
    var x: int
    var y: int
    var z: int

    constructor (x: int, y: int, z: int)
      ensures View() == Jacobian(x, y, z)
    {
      this.x, this.y, this.z := x, y, z;
    }

    function View(): Jacobian
      reads this
    {
      Jacobian(x, y, z)
    }
  }

  lemma HornerRhs(x: int, dp: Domain)
    requires dp.m > 0
    ensures Cong(AddMod(MulMod(AddMod(MulMod(x, x, dp.m), dp.a, dp.m), x, dp.m), dp.b, dp.m), Rhs(x, dp), dp.m)
  {
    var m := dp.m;
    CongSelf(x, m); CongSelf(dp.a, m); CongSelf(dp.b, m);
    var s := MulMod(x, x, m);
    hide Cong, AddMod, MulMod;
    AddHom(s, x * x, dp.a, dp.a, m);
    MulHom(AddMod(s, dp.a, m), x * x + dp.a, x, x, m);
    AddHom(MulMod(AddMod(s, dp.a, m), x, m), (x * x + dp.a) * x, dp.b, dp.b, m);
    HornerExpanded(x, dp.a, dp.b);
  }

  lemma HornerExpanded(x: int, a: int, b: int)
    ensures (x * x + a) * x + b == x * x * x + a * x + b
  {
  }

  /** The registers both `point_on_curve` and `point_decompress` start with. */
  method CurveRhs(x: int, dp: Domain) returns (h: int)
    requires dp.m > 0
    ensures InField(h, dp) && Cong(h, Rhs(x, dp), dp.m)
  {
    HornerRhs(x, dp);
    hide Cong, AddMod, MulMod, Rhs;
    h := MulMod(x, x, dp.m);
    h := AddMod(h, dp.a, dp.m);
    h := MulMod(h, x, dp.m);
    h := AddMod(h, dp.b, dp.m);
  }

  method PointOnCurve(p: AffinePoint, dp: Domain) returns (res: bool)
    requires ValidDomain(dp) && Reduced(p.View(), dp)
    ensures res <==> OnCurve(p.View(), dp)
  {
    res := p.View() == Zero;
    if !res {
      var h1 := CurveRhs(p.x, dp);
      var h2 := MulMod(p.y, p.y, dp.m);
      res := h1 == h2;
      SameResidues(h1, Rhs(p.x, dp), h2, p.y * p.y, dp.m);
    }
  }

  lemma SameResidues(r: int, a: int, s: int, b: int, m: int)
    requires 0 <= r < m && 0 <= s < m && Cong(r, a, m) && Cong(s, b, m)
    ensures r == s <==> Cong(b, a, m)
  {
    hide Cong;
    if r == s {
      Combine2(m, b, a, 1, r, a, -1, s, b);
    } else if Cong(b, a, m) {
      Combine3(m, r, s, 1, r, a, -1, b, a, -1, s, b);
      SameFieldElement(r, s, m);
    }
  }

  // ------------------------------------------------------------ affine

  /** Registers t1, t2 up to the slope of the tangent. */
  lemma TangentRegisters(x: int, y: int, a: int, m: int)
    requires IsPrime(m) && m > 3 && 0 < y < m
    ensures !Cong(2 * y, 0, m) && !Cong(AddMod(y, y, m), 0, m)
    ensures
      var t2 := MulMod(x, x, m);
      var t1 := AddMod(AddMod(AddMod(t2, t2, m), t2, m), a, m);
      MulMod(t1, InvMod(AddMod(y, y, m), m), m) == Slope(3 * x * x + a, 2 * y, m)
  {
    TwiceNonzero(y, m);
    CongSelf(a, m);
    CongSelf(y, m);
    var t2 := MulMod(x, x, m);
    var t := AddMod(t2, t2, m);
    AddHom(t2, x * x, t2, x * x, m);
    var u := AddMod(t, t2, m);
    AddHom(t, x * x + x * x, t2, x * x, m);
    AddHom(u, x * x + x * x + x * x, a, a, m);
    assert x * x + x * x + x * x + a == 3 * x * x + a;
    QuotientOfCongruent(AddMod(u, a, m), 3 * x * x + a, AddMod(y, y, m), 2 * y, m);
  }

  /** A slope depends on its terms only up to congruence. */
  lemma QuotientOfCongruent(num: int, num': int, den: int, den': int, m: int)
    requires IsPrime(m) && !Cong(den', 0, m) && Cong(num, num', m) && Cong(den, den', m)
    ensures !Cong(den, 0, m)
    ensures MulMod(num, InvMod(den, m), m) == Slope(num', den', m)
  {
    hide Cong;
    if Cong(den, 0, m) {
      Combine2(m, den', 0, -1, den, den', 1, den, 0);
      assert false;
    }
    var i := InvMod(den, m);
    var l, k := MulMod(num, i, m), Slope(num', den', m);
    SlopeCorrect(num, den, m);
    Combine4(m, den' * l, den' * k, -l, den, den', 1, l * den, num, 1, num, num', -1, k * den', num');
    CancelFactor(den', l, k, m);
    SameFieldElement(l, k, m);
  }

  /** A chain of register updates ending at residues of the third point. */
  lemma IsThirdPoint(l: int, x: int, y: int, x': int, rx: int, ry: int, m: int)
    requires 0 <= rx < m && 0 <= ry < m
    requires Cong(rx, l * l - x - x', m) && Cong(ry, l * (x - rx) - y, m)
    ensures Point(rx, ry) == ThirdPoint(l, x, y, x', m)
  {
    var r := ThirdPoint(l, x, y, x', m);
    hide Cong, ThirdPoint;
    Combine2(m, rx, r.x, 1, rx, l * l - x - x', -1, r.x, l * l - x - x');
    SameFieldElement(rx, r.x, m);
    Combine2(m, ry, r.y, 1, ry, l * (x - rx) - y, -1, r.y, l * (x - rx) - y);
    SameFieldElement(ry, r.y, m);
  }

  lemma TangentEnd(l: int, x: int, y: int, m: int)
    requires m > 0
    ensures
      var x3 := SubMod(SubMod(MulMod(l, l, m), x, m), x, m);
      Point(x3, SubMod(MulMod(l, SubMod(x, x3, m), m), y, m)) == ThirdPoint(l, x, y, x, m)
  {
    CongSelf(x, m); CongSelf(y, m); CongSelf(l, m);
    var s := MulMod(l, l, m);
    SubHom(s, l * l, x, x, m);
    var t := SubMod(s, x, m);
    SubHom(t, l * l - x, x, x, m);
    var x3 := SubMod(t, x, m);
    CongSelf(x3, m);
    MulHom(l, l, SubMod(x, x3, m), x - x3, m);
    var w := MulMod(l, SubMod(x, x3, m), m);
    SubHom(w, l * (x - x3), y, y, m);
    IsThirdPoint(l, x, y, x, x3, SubMod(w, y, m), m);
  }

  method PointDouble(p: AffinePoint, dp: Domain)
    requires ValidDomain(dp) && Reduced(p.View(), dp)
    modifies p
    ensures p.View() == Double(old(p.View()), dp)
  {
    var m := dp.m;
    if p.y != 0 {
      TangentRegisters(p.x, p.y, dp.a, m);
      hide Cong, AddMod, SubMod, MulMod, InvMod, Slope, ThirdPoint;
      var t2 := MulMod(p.x, p.x, m);
      var t1 := AddMod(t2, t2, m);
      t1 := AddMod(t1, t2, m);
      t1 := AddMod(t1, dp.a, m);
      t2 := AddMod(p.y, p.y, m);
      t2 := InvMod(t2, m);
      t1 := MulMod(t1, t2, m);
      TangentEnd(t1, p.x, p.y, m);
      t2 := MulMod(t1, t1, m);
      t2 := SubMod(t2, p.x, m);
      t2 := SubMod(t2, p.x, m);
      p.x := SubMod(p.x, t2, m);
      t1 := MulMod(t1, p.x, m);
      p.y := SubMod(t1, p.y, m);
      p.x := t2;
    } else {
      p.x := 0;
    }
  }

  lemma ChordRegisters(p: Point, q: Point, m: int)
    requires IsPrime(m) && 0 <= p.x < m && 0 <= q.x < m && p.x != q.x
    ensures !Cong(p.x - q.x, 0, m) && !Cong(SubMod(p.x, q.x, m), 0, m)
    ensures MulMod(SubMod(p.y, q.y, m), InvMod(SubMod(p.x, q.x, m), m), m) == Slope(p.y - q.y, p.x - q.x, m)
  {
    CloseNotCong(p.x, q.x, m);
    DifferenceNonzero(p.x, q.x, m);
    QuotientOfCongruent(SubMod(p.y, q.y, m), p.y - q.y, SubMod(p.x, q.x, m), p.x - q.x, m);
  }

  lemma ChordEnd(l: int, p: Point, q: Point, m: int)
    requires m > 0
    ensures
      var x3 := SubMod(MulMod(l, l, m), AddMod(p.x, q.x, m), m);
      Point(x3, SubMod(MulMod(l, SubMod(q.x, x3, m), m), q.y, m)) == ThirdPoint(l, q.x, q.y, p.x, m)
  {
    CongSelf(q.y, m); CongSelf(l, m);
    var s, t := MulMod(l, l, m), AddMod(p.x, q.x, m);
    SubHom(s, l * l, t, p.x + q.x, m);
    var x3 := SubMod(s, t, m);
    MulHom(l, l, SubMod(q.x, x3, m), q.x - x3, m);
    var w := MulMod(l, SubMod(q.x, x3, m), m);
    SubHom(w, l * (q.x - x3), q.y, q.y, m);
    assert l * l - (p.x + q.x) == l * l - q.x - p.x;
    IsThirdPoint(l, q.x, q.y, p.x, x3, SubMod(w, q.y, m), m);
  }

  /** `point_add`; p1 and p2 may be the same object. */
  method PointAdd(p1: AffinePoint, p2: AffinePoint, dp: Domain)
    requires ValidDomain(dp) && Reduced(p1.View(), dp) && Reduced(p2.View(), dp)
    modifies p1
    ensures p1.View() == Add(old(p1.View()), old(p2.View()), dp)
    ensures p1 != p2 ==> unchanged(p2)
  {
    var m := dp.m;
    ghost var p, q := p1.View(), p2.View();
    if p2.View() != Zero {
      if p1.View() != Zero {
        if p1.x == p2.x {
          if p1.y == p2.y {
            PointDouble(p1, dp);
          } else {
            p1.x, p1.y := 0, 0;
          }
        } else {
          ChordRegisters(p, q, m);
          hide Cong, AddMod, SubMod, MulMod, InvMod, Slope, ThirdPoint;
          var t := SubMod(p1.y, p2.y, m);
          p1.y := SubMod(p1.x, p2.x, m);
          p1.y := InvMod(p1.y, m);
          p1.y := MulMod(t, p1.y, m);
          ChordEnd(p1.y, p, q, m);
          t := MulMod(p1.y, p1.y, m);
          p1.x := AddMod(p1.x, p2.x, m);
          p1.x := SubMod(t, p1.x, m);
          t := SubMod(p2.x, p1.x, m);
          p1.y := MulMod(p1.y, t, m);
          p1.y := SubMod(p1.y, p2.y, m);
        }
      } else {
        p1.x, p1.y := p2.x, p2.y;
      }
    }
  }

  // ---------------------------------------------------------- Jacobian

  lemma JacobianTangentRegisters(j: Jacobian, dp: Domain)
    requires dp.m > 0
    ensures
      var m := dp.m;
      var s1 := MulMod(j.x, j.x, m);
      var t2 := AddMod(AddMod(s1, s1, m), s1, m);
      var z2 := MulMod(j.z, j.z, m);
      Cong(AddMod(MulMod(MulMod(z2, z2, m), dp.a, m), t2, m),
           3 * j.x * j.x + dp.a * (j.z * j.z * j.z * j.z), m)
  {
    var m, xx, zz := dp.m, j.x * j.x, j.z * j.z;
    CongSelf(dp.a, m);
    var s1 := MulMod(j.x, j.x, m);
    var s2 := AddMod(s1, s1, m);
    AddHom(s1, xx, s1, xx, m);
    AddHom(s2, xx + xx, s1, xx, m);
    var t2 := AddMod(s2, s1, m);
    var z2 := MulMod(j.z, j.z, m);
    MulHom(z2, zz, z2, zz, m);
    var z4 := MulMod(z2, z2, m);
    MulHom(z4, zz * zz, dp.a, dp.a, m);
    AddHom(MulMod(z4, dp.a, m), zz * zz * dp.a, t2, xx + xx + xx, m);
    assert zz * zz * dp.a + (xx + xx + xx) == 3 * j.x * j.x + dp.a * (j.z * j.z * j.z * j.z);
  }

  lemma JacobianTangentScale(j: Jacobian, m: int)
    requires m > 0
    ensures var zy := MulMod(j.z, j.y, m); Cong(AddMod(zy, zy, m), 2 * j.y * j.z, m)
    ensures
      var yy := MulMod(j.y, j.y, m);
      var y2 := AddMod(yy, yy, m);
      && Cong(y2, 2 * (j.y * j.y), m)
      && var t2 := MulMod(j.x, y2, m); Cong(AddMod(t2, t2, m), 4 * j.x * (j.y * j.y), m)
  {
    CongSelf(j.x, m);
    var zy := MulMod(j.z, j.y, m);
    AddHom(zy, j.z * j.y, zy, j.z * j.y, m);
    assert j.z * j.y + j.z * j.y == 2 * j.y * j.z;
    var yy := MulMod(j.y, j.y, m);
    AddHom(yy, j.y * j.y, yy, j.y * j.y, m);
    var y2 := AddMod(yy, yy, m);
    MulHom(j.x, j.x, y2, 2 * (j.y * j.y), m);
    var t2 := MulMod(j.x, y2, m);
    AddHom(t2, j.x * (2 * (j.y * j.y)), t2, j.x * (2 * (j.y * j.y)), m);
    assert j.x * (2 * (j.y * j.y)) + j.x * (2 * (j.y * j.y)) == 4 * j.x * (j.y * j.y);
  }

  /** From t1 = t, t2 = s and y = 2*Y^2 to the new abscissa and ordinate. */
  lemma JacobianTangentEnd(t1: int, t: int, t2: int, s: int, y2: int, yy: int, m: int)
    requires m > 0 && Cong(t1, t, m) && Cong(t2, s, m) && Cong(y2, 2 * yy, m)
    ensures
      var x := SubMod(SubMod(MulMod(t1, t1, m), t2, m), t2, m);
      var w := MulMod(y2, y2, m);
      && x == (t * t - 2 * s) % m
      && SubMod(MulMod(t1, SubMod(t2, x, m), m), AddMod(w, w, m), m) == (t * (s - x) - 8 * (yy * yy)) % m
  {
    var q := MulMod(t1, t1, m);
    MulHom(t1, t, t1, t, m);
    SubHom(q, t * t, t2, s, m);
    var r := SubMod(q, t2, m);
    SubHom(r, t * t - s, t2, s, m);
    var x := SubMod(r, t2, m);
    IsResidue(x, t * t - 2 * s, m) by { assert t * t - s - s == t * t - 2 * s; }
    CongSelf(x, m);
    SubHom(t2, s, x, x, m);
    MulHom(t1, t, SubMod(t2, x, m), s - x, m);
    var w := MulMod(y2, y2, m);
    MulHom(y2, 2 * yy, y2, 2 * yy, m);
    AddHom(w, (2 * yy) * (2 * yy), w, (2 * yy) * (2 * yy), m);
    assert (2 * yy) * (2 * yy) + (2 * yy) * (2 * yy) == 8 * (yy * yy);
    var v := MulMod(t1, SubMod(t2, x, m), m);
    SubHom(v, t * (s - x), AddMod(w, w, m), 8 * (yy * yy), m);
    IsResidue(SubMod(v, AddMod(w, w, m), m), t * (s - x) - 8 * (yy * yy), m);
  }

  lemma IsResidue(r: int, v: int, m: int)
    requires 0 <= r < m && Cong(r, v, m)
    ensures r == v % m
  {
    CongIffSameResidue(r, v, m);
    SmallResidue(r, m);
  }

  lemma Quartic(y: int)
    ensures y * y * y * y == (y * y) * (y * y)
  {
  }

  /** All registers of `jacobian_double` composed. */
  lemma JacobianDoubleRegisters(j: Jacobian, dp: Domain)
    requires ValidDomain(dp) && JacobianReduced(j, dp) && j.z != 0 && j.y != 0
    ensures
      var m := dp.m;
      var s1 := MulMod(j.x, j.x, m);
      var z2 := MulMod(j.z, j.z, m);
      var t1 := AddMod(MulMod(MulMod(z2, z2, m), dp.a, m), AddMod(AddMod(s1, s1, m), s1, m), m);
      var zy := MulMod(j.z, j.y, m);
      var yy := MulMod(j.y, j.y, m);
      var y2 := AddMod(yy, yy, m);
      var t2 := MulMod(j.x, y2, m);
      var t2' := AddMod(t2, t2, m);
      var x := SubMod(SubMod(MulMod(t1, t1, m), t2', m), t2', m);
      var w := MulMod(y2, y2, m);
      Jacobian(x, SubMod(MulMod(t1, SubMod(t2', x, m), m), AddMod(w, w, m), m), AddMod(zy, zy, m))
        == JacobianDouble(j, dp)
  {
    var m := dp.m;
    JacobianTangentRegisters(j, dp);
    JacobianTangentScale(j, m);
    Quartic(j.y);
    hide Cong, AddMod, SubMod, MulMod, IsPrime;
    var s1 := MulMod(j.x, j.x, m);
    var z2 := MulMod(j.z, j.z, m);
    var t1 := AddMod(MulMod(MulMod(z2, z2, m), dp.a, m), AddMod(AddMod(s1, s1, m), s1, m), m);
    var zy := MulMod(j.z, j.y, m);
    var yy := MulMod(j.y, j.y, m);
    var y2 := AddMod(yy, yy, m);
    var t2 := MulMod(j.x, y2, m);
    IsResidue(AddMod(zy, zy, m), 2 * j.y * j.z, m);
    JacobianTangentEnd(t1, 3 * j.x * j.x + dp.a * (j.z * j.z * j.z * j.z), AddMod(t2, t2, m), 4 * j.x * (j.y * j.y),
      y2, j.y * j.y, m);
  }

  method JacobianPointDouble(p: JacobianPoint, dp: Domain)
    requires ValidDomain(dp) && JacobianReduced(p.View(), dp)
    modifies p
    ensures p.View() == JacobianDouble(old(p.View()), dp)
  {
    if p.z != 0 {
      if p.y != 0 {
        var m := dp.m;
        JacobianDoubleRegisters(p.View(), dp);
        hide Cong, AddMod, SubMod, MulMod, JacobianDouble, IsPrime;
        var t1 := MulMod(p.x, p.x, m);
        var t2 := AddMod(t1, t1, m);
        t2 := AddMod(t2, t1, m);
        t1 := MulMod(p.z, p.z, m);
        t1 := MulMod(t1, t1, m);
        t1 := MulMod(t1, dp.a, m);
        t1 := AddMod(t1, t2, m);
        p.z := MulMod(p.z, p.y, m);
        p.z := AddMod(p.z, p.z, m);
        p.y := MulMod(p.y, p.y, m);
        p.y := AddMod(p.y, p.y, m);
        t2 := MulMod(p.x, p.y, m);
        t2 := AddMod(t2, t2, m);
        p.x := MulMod(t1, t1, m);
        p.x := SubMod(p.x, t2, m);
        p.x := SubMod(p.x, t2, m);
        t2 := SubMod(t2, p.x, m);
        t1 := MulMod(t1, t2, m);
        t2 := MulMod(p.y, p.y, m);
        t2 := AddMod(t2, t2, m);
        p.y := SubMod(t1, t2, m);
      } else {
        p.z := 0;
      }
    }
  }

  lemma ScaledAffine(z: int, q: Point, m: int)
    requires m > 0
    ensures var z2 := MulMod(z, z, m);
            && MulMod(z2, q.x, m) == ScaledX(q.x, z, m)
            && MulMod(MulMod(z2, z, m), q.y, m) == ScaledY(q.y, z, m)
  {
    CongSelf(q.x, m); CongSelf(q.y, m); CongSelf(z, m);
    var z2 := MulMod(z, z, m);
    MulHom(z2, z * z, q.x, q.x, m);
    assert z * z * q.x == q.x * (z * z);
    IsResidue(MulMod(z2, q.x, m), q.x * (z * z), m);
    MulHom(z2, z * z, z, z, m);
    MulHom(MulMod(z2, z, m), z * z * z, q.y, q.y, m);
    assert z * z * z * q.y == q.y * (z * z * z);
    IsResidue(MulMod(MulMod(z2, z, m), q.y, m), q.y * (z * z * z), m);
  }

  /** From U = x - t2 and V = y - t1 to the new triple. */
  lemma JacobianChordEnd(j: Jacobian, x2: int, y2: int, m: int)
    requires m > 0
    ensures
      var u, v := j.x - x2, j.y - y2;
      var px, py := SubMod(j.x, x2, m), SubMod(j.y, y2, m);
      var uu := MulMod(px, px, m);
      var t2 := MulMod(x2, uu, m);
      var t3 := MulMod(uu, px, m);
      var t1 := MulMod(y2, t3, m);
      var x := SubMod(SubMod(SubMod(MulMod(py, py, m), t3, m), t2, m), t2, m);
      && MulMod(j.z, px, m) == (j.z * u) % m
      && x == (v * v - u * u * u - 2 * (x2 * (u * u))) % m
      && SubMod(MulMod(py, SubMod(t2, x, m), m), t1, m) == (v * (x2 * (u * u) - x) - y2 * (u * u * u)) % m
  {
    var u, v := j.x - x2, j.y - y2;
    CongSelf(j.z, m); CongSelf(x2, m); CongSelf(y2, m);
    var px, py := SubMod(j.x, x2, m), SubMod(j.y, y2, m);
    hide Cong;
    MulHom(j.z, j.z, px, u, m);
    IsResidue(MulMod(j.z, px, m), j.z * u, m);
    var uu := MulMod(px, px, m);
    MulHom(px, u, px, u, m);
    var t2 := MulMod(x2, uu, m);
    MulHom(x2, x2, uu, u * u, m);
    var t3 := MulMod(uu, px, m);
    MulHom(uu, u * u, px, u, m);
    var t1 := MulMod(y2, t3, m);
    MulHom(y2, y2, t3, u * u * u, m);
    var vv := MulMod(py, py, m);
    MulHom(py, v, py, v, m);
    var t := x2 * (u * u);
    var x1 := SubMod(vv, t3, m);
    SubHom(vv, v * v, t3, u * u * u, m);
    var x1' := SubMod(x1, t2, m);
    SubHom(x1, v * v - u * u * u, t2, t, m);
    var x := SubMod(x1', t2, m);
    SubHom(x1', v * v - u * u * u - t, t2, t, m);
    assert v * v - u * u * u - t - t == v * v - u * u * u - 2 * t;
    IsResidue(x, v * v - u * u * u - 2 * t, m);
    CongSelf(x, m);
    SubHom(t2, t, x, x, m);
    MulHom(py, v, SubMod(t2, x, m), t - x, m);
    var w := MulMod(py, SubMod(t2, x, m), m);
    SubHom(w, v * (t - x), t1, y2 * (u * u * u), m);
    IsResidue(SubMod(w, t1, m), v * (t - x) - y2 * (u * u * u), m);
  }

  lemma JacobianChordRegisters(j: Jacobian, x2: int, y2: int, m: int)
    requires m > 0
    ensures
      var px, py := SubMod(j.x, x2, m), SubMod(j.y, y2, m);
      var uu := MulMod(px, px, m);
      var t2 := MulMod(x2, uu, m);
      var t3 := MulMod(uu, px, m);
      var x := SubMod(SubMod(SubMod(MulMod(py, py, m), t3, m), t2, m), t2, m);
      Jacobian(x, SubMod(MulMod(py, SubMod(t2, x, m), m), MulMod(y2, t3, m), m), MulMod(j.z, px, m))
        == JacobianChord(j, x2, y2, m)
  {
    JacobianChordEnd(j, x2, y2, m);
  }

  method JacobianAffinePointAdd(p1: JacobianPoint, p2: AffinePoint, dp: Domain)
    requires ValidDomain(dp) && JacobianReduced(p1.View(), dp) && Reduced(p2.View(), dp)
    modifies p1
    ensures p1.View() == JacobianAddAffine(old(p1.View()), p2.View(), dp)
    ensures unchanged(p2)
  {
    if p2.View() != Zero {
      if p1.z != 0 {
        var m := dp.m;
        ghost var j, q := p1.View(), p2.View();
        ScaledAffine(j.z, q, m);
        hide Cong, MulMod, IsPrime, JacobianDouble, ScaledX, ScaledY, JacobianChord;
        var t1 := MulMod(p1.z, p1.z, m);
        var t2 := MulMod(t1, p2.x, m);
        t1 := MulMod(t1, p1.z, m);
        t1 := MulMod(t1, p2.y, m);
        if p1.x == t2 {
          if p1.y == t1 {
            JacobianPointDouble(p1, dp);
          } else {
            p1.z := 0;
          }
        } else {
          JacobianChordTail(p1, t2, t1, m);
        }
      } else {
        p1.x, p1.y, p1.z := p2.x, p2.y, 1;
      }
    }
  }

  /** The register updates of the chord branch. */
  method JacobianChordTail(p1: JacobianPoint, x2: int, y2: int, m: int)
    requires m > 0
    modifies p1
    ensures p1.View() == JacobianChord(old(p1.View()), x2, y2, m)
  {
    JacobianChordRegisters(p1.View(), x2, y2, m);
    hide Cong, AddMod, SubMod, MulMod, JacobianChord;
    var t2, t1 := x2, y2;
    p1.x := SubMod(p1.x, t2, m);
    p1.y := SubMod(p1.y, t1, m);
    p1.z := MulMod(p1.z, p1.x, m);
    var t3 := MulMod(p1.x, p1.x, m);
    t2 := MulMod(t2, t3, m);
    t3 := MulMod(t3, p1.x, m);
    t1 := MulMod(t1, t3, m);
    p1.x := MulMod(p1.y, p1.y, m);
    p1.x := SubMod(p1.x, t3, m);
    p1.x := SubMod(p1.x, t2, m);
    p1.x := SubMod(p1.x, t2, m);
    t2 := SubMod(t2, p1.x, m);
    p1.y := MulMod(p1.y, t2, m);
    p1.y := SubMod(p1.y, t1, m);
  }

  method JacobianToAffine(p: JacobianPoint, dp: Domain) returns (r: AffinePoint)
    requires ValidDomain(dp) && JacobianReduced(p.View(), dp)
    ensures fresh(r) && r.View() == ToAffine(p.View(), dp)
  {
    r := new AffinePoint(0, 0);
    if p.z != 0 {
      var m := dp.m;
      TwiceNonzero(p.z, m);
      AffineRegisters(p.View(), InvMod(p.z, m), m);
      hide Cong, MulMod, InvMod, IsPrime;
      var h := InvMod(p.z, m);
      r.y := MulMod(h, h, m);
      r.x := MulMod(p.x, r.y, m);
      r.y := MulMod(r.y, h, m);
      r.y := MulMod(r.y, p.y, m);
    }
  }

  lemma AffineRegisters(j: Jacobian, h: int, m: int)
    requires m > 0
    ensures var hh := MulMod(h, h, m);
            && MulMod(j.x, hh, m) == (j.x * h * h) % m
            && MulMod(MulMod(hh, h, m), j.y, m) == (j.y * h * h * h) % m
  {
    CongSelf(h, m); CongSelf(j.x, m); CongSelf(j.y, m);
    var hh := MulMod(h, h, m);
    hide Cong, MulMod;
    MulHom(j.x, j.x, hh, h * h, m);
    assert j.x * (h * h) == j.x * h * h;
    IsResidue(MulMod(j.x, hh, m), j.x * h * h, m);
    MulHom(hh, h * h, h, h, m);
    MulHom(MulMod(hh, h, m), h * h * h, j.y, j.y, m);
    CubeLast(h, j.y);
    IsResidue(MulMod(MulMod(hh, h, m), j.y, m), j.y * h * h * h, m);
  }

  lemma CubeLast(h: int, y: int)
    ensures h * h * h * y == y * h * h * h
  {
  }

  // ------------------------------------------- scalar multiplication

  /** Left-to-right double-and-add over the bits of e. */
  function DoubleAndAdd(p: Point, e: nat, dp: Domain): (r: Point)
    requires ValidDomain(dp) && OnCurve(p, dp)
    ensures OnCurve(r, dp)
  {
    if e == 0 then Zero else
      var h := DoubleAndAdd(p, e / 2, dp);
      DoubleOnCurve(h, dp);
      AddOnCurve(Double(h, dp), p, dp);
      if e % 2 == 1 then Add(Double(h, dp), p, dp) else Double(h, dp)
  }

  lemma AffineBit(p: Point, h: nat, dp: Domain)
    requires ValidDomain(dp) && OnCurve(p, dp)
    ensures var d := Double(DoubleAndAdd(p, h / 2, dp), dp);
            Reduced(d, dp) && DoubleAndAdd(p, h, dp) == if h % 2 == 1 then Add(d, p, dp) else d
  {
  }

  lemma JacobianBit(j: Jacobian, p: Point, h: nat, dp: Domain)
    requires ValidDomain(dp) && Proper(j, dp) && OnCurve(p, dp)
    requires ToAffine(j, dp) == DoubleAndAdd(p, h / 2, dp)
    ensures
      var k := JacobianDouble(j, dp);
      var k' := if h % 2 == 1 then JacobianAddAffine(k, p, dp) else k;
      Proper(k', dp) && ToAffine(k', dp) == DoubleAndAdd(p, h, dp)
  {
    ProperDouble(j, dp);
    if h % 2 == 1 { ProperAdd(JacobianDouble(j, dp), p, dp); }
  }

  /** The version under `#if 0`. */
  method PointMulAffine(p: AffinePoint, e: nat, dp: Domain) returns (r: AffinePoint)
    requires ValidDomain(dp) && OnCurve(p.View(), dp)
    ensures fresh(r) && r.View() == DoubleAndAdd(p.View(), e, dp)
    ensures OnCurve(r.View(), dp)
  {
    r := new AffinePoint(0, 0);
    var n := BitLength(e);
    ShiftEnds(e);
    NoBits(p.View(), dp);
    hide Cong, Double, Add, IsPrime, ShiftRight, BitLength, DoubleAndAdd;
    while n != 0
      invariant fresh(r) && unchanged(p)
      invariant r.View() == DoubleAndAdd(p.View(), ShiftRight(e, n), dp)
      decreases n
    {
      ghost var h := ShiftRight(e, n - 1);
      ShiftStep(e, n - 1);
      AffineBit(p.View(), h, dp);
      PointDouble(r, dp);
      n := n - 1;
      if TestBit(e, n) {
        PointAdd(r, p, dp);
      }
    }
  }

  lemma FirstMultiples(p: Point, dp: Domain)
    requires ValidDomain(dp) && OnCurve(p, dp)
    ensures DoubleAndAdd(p, 0, dp) == Zero && DoubleAndAdd(p, 1, dp) == p
  {
  }

  lemma NoBits(p: Point, dp: Domain)
    requires ValidDomain(dp) && OnCurve(p, dp)
    ensures DoubleAndAdd(p, 0, dp) == Zero
  {
  }

  /** The version that is compiled; its result is the affine one's. */
  method PointMul(p: AffinePoint, e: nat, dp: Domain) returns (r: AffinePoint)
    requires ValidDomain(dp) && OnCurve(p.View(), dp)
    ensures fresh(r) && r.View() == DoubleAndAdd(p.View(), e, dp)
    ensures OnCurve(r.View(), dp)
    ensures e == 0 ==> r.View() == Zero
    ensures e == 1 ==> r.View() == old(p.View())
  {
    FirstMultiples(p.View(), dp);
    var j := new JacobianPoint(0, 0, 0);
    var n := BitLength(e);
    ShiftEnds(e);
    NoBits(p.View(), dp);
    assert ToAffine(j.View(), dp) == Zero;
    hide Cong, IsPrime, ShiftRight, BitLength, DoubleAndAdd, JacobianDouble, JacobianAddAffine, ToAffine,
      SolvesEquation;
    while n != 0
      invariant fresh(j) && unchanged(p)
      invariant Proper(j.View(), dp)
      invariant ToAffine(j.View(), dp) == DoubleAndAdd(p.View(), ShiftRight(e, n), dp)
      decreases n
    {
      ghost var h := ShiftRight(e, n - 1);
      ShiftStep(e, n - 1);
      JacobianBit(j.View(), p.View(), h, dp);
      JacobianPointDouble(j, dp);
      n := n - 1;
      if TestBit(e, n) {
        JacobianAffinePointAdd(j, p, dp);
      }
    }
    r := JacobianToAffine(j, dp);
    assert OnCurve(r.View(), dp);
  }

  // ------------------------------------------------ point compression

  /** A finite point: what compression is defined on. */
  ghost predicate Finite(p: Point, dp: Domain)
    requires dp.m > 0
  {
    Reduced(p, dp) && SolvesEquation(p, dp)
  }

  /** `point_compress`: whether the ordinate is odd. */
  method PointCompress(p: AffinePoint) returns (yflag: bool)
    requires p.y >= 0
    ensures yflag <==> p.View().y % 2 == 1
  {
    yflag := TestBit(p.y, 0);
  }

  lemma SameSquare(a: int, b: int, r: int, m: int)
    requires IsPrime(m) && Cong(a * a, r, m) && Cong(b * b, r, m)
    ensures Cong(a - b, 0, m) || Cong(a + b, 0, m)
  {
    hide Cong;
    SquareDifference(a, b, r);
    Combine2(m, (a - b) * (a + b), 0, 1, a * a, r, -1, b * b, r);
    PrimeDividesProduct(a - b, a + b, m);
  }

  lemma SquareDifference(a: int, b: int, r: int)
    ensures (a - b) * (a + b) - 0 == 1 * (a * a - r) + -1 * (b * b - r)
  {
  }

  /** An abscissa and a parity leave at most one point. */
  lemma CompressionDetermines(p: Point, q: Point, dp: Domain)
    requires ValidDomain(dp) && Finite(p, dp) && Finite(q, dp) && p.x == q.x && p.y % 2 == q.y % 2
    ensures p == q
  {
    hide Cong, Rhs, IsPrime;
    OddPrime(dp.m);
    SameSquare(p.y, q.y, Rhs(p.x, dp), dp.m);
    ParityDetermines(p.y, q.y, dp.m);
  }

  lemma ParityDetermines(y: int, z: int, m: int)
    requires m % 2 == 1 && 0 <= y < m && 0 <= z < m && (y % 2 == 1 <==> z % 2 == 1)
    requires Cong(y - z, 0, m) || Cong(y + z, 0, m)
    ensures y == z
  {
    hide Cong;
    if Cong(y - z, 0, m) {
      SmallMultiple(y - z, m);
    } else {
      SmallMultiple(y + z, m);
    }
  }

  /** The multiples of m strictly between -m and 2m. */
  lemma SmallMultiple(v: int, m: int)
    requires m > 0 && -m < v < 2 * m && Cong(v, 0, m)
    ensures v == 0 || v == m
  {
    var k := CongWitness(v, 0, m);
    MultipleBound(k, m);
    if k >= 1 { MultipleBound(k - 1, m); assert k * m == (k - 1) * m + m; }
  }

  method PointDecompress(p: AffinePoint, x: int, yflag: bool, dp: Domain) returns (res: bool)
    requires ValidDomain(dp) && InField(x, dp)
    modifies p
    ensures res ==> Finite(p.View(), dp) && p.View().x == x && (p.View().y % 2 == 1) == yflag
    ensures !res ==> unchanged(p)
    ensures !res ==> forall q: Point :: Finite(q, dp) && q.x == x ==> (q.y % 2 == 1) != yflag
  {
    var m := dp.m;
    var h := CurveRhs(x, dp);
    OddPrime(m);
    var y;
    res, y := NumTheory.ModRoot(h, m);
    RootOrNot(x, h, res, y, dp);
    if res {
      res := y != 0 || !yflag;
      if res {
        NegatedRoot(x, h, y, dp);
        p.x := x;
        if (y % 2 == 1) == yflag {
          p.y := y;
        } else {
          p.y := m - y;
        }
        assert OnCurve(p.View(), dp);
      }
    }
  }

  /** What the root says about the points above x. */
  lemma RootOrNot(x: int, h: int, found: bool, y: int, dp: Domain)
    requires ValidDomain(dp) && InField(h, dp) && Cong(h, Rhs(x, dp), dp.m)
    requires found <==> NumTheory.HasRoot(h, dp.m)
    requires found ==> NumTheory.IsRoot(y, h, dp.m)
    ensures !found ==> forall q: Point :: q.x == x ==> !Finite(q, dp)
    ensures found && y == 0 ==> forall q: Point :: q.x == x && Finite(q, dp) ==> q.y == 0
  {
    hide Cong;
    forall q: Point | q.x == x && Finite(q, dp)
      ensures found && (y == 0 ==> q.y == 0)
    {
      CongSym(h, Rhs(x, dp), dp.m);
      CongTrans(q.y * q.y, Rhs(x, dp), h, dp.m);
      assert NumTheory.IsRoot(q.y, h, dp.m);
      if y == 0 && q.y != 0 {
        CongSym(0 * 0, h, dp.m);
        CongTrans(q.y * q.y, h, 0, dp.m);
        TwiceNonzero(q.y, dp.m);
        ProductNonzero(q.y, q.y, dp.m);
        assert false;
      }
    }
  }

  lemma NegatedRoot(x: int, h: int, y: int, dp: Domain)
    requires ValidDomain(dp) && InField(x, dp) && Cong(h, Rhs(x, dp), dp.m) && NumTheory.IsRoot(y, h, dp.m)
    ensures Finite(Point(x, y), dp)
    ensures y != 0 ==> Finite(Point(x, dp.m - y), dp) && (y % 2 == 1 <==> (dp.m - y) % 2 != 1)
  {
    hide Cong, IsPrime, Rhs;
    OddPrime(dp.m);
    NegatedSquare(y, dp.m);
    FlipParity(y, dp.m);
    CongTrans(y * y, h, Rhs(x, dp), dp.m);
    CongTrans((dp.m - y) * (dp.m - y), y * y, Rhs(x, dp), dp.m);
  }

  lemma FlipParity(y: int, m: int)
    requires m % 2 == 1
    ensures y % 2 == 1 <==> (m - y) % 2 != 1
  {
  }

  lemma NegatedSquare(y: int, m: int)
    requires m > 0
    ensures Cong((m - y) * (m - y), y * y, m)
  {
    assert (m - y) * (m - y) - y * y == (m - 2 * y) * m;
    CongFromWitness((m - y) * (m - y), y * y, m, m - 2 * y);
  }
}
