/** The affine group law of seccure/ecc.c as a mathematical function, its
    closure, and its agreement with Jacobian coordinates.

    (0, 0) encodes the neutral element, which is why the source insists on
    b != 0: the origin is then not a solution of the curve equation. */
module Curve {
  import opened ModArith
  import opened Primes
  import opened Mpi

  datatype Point = Point(x: int, y: int)
  datatype Jacobian = Jacobian(x: int, y: int, z: int)
  datatype Domain = Domain(a: int, b: int, m: int, order: int, base: Point, cofactor: int)

  const Zero := Point(0, 0)

  ghost predicate ValidDomain(dp: Domain)
  {
    IsPrime(dp.m) && dp.m > 3 && 0 <= dp.a < dp.m && 0 < dp.b < dp.m
  }

  predicate InField(v: int, dp: Domain)
  {
    0 <= v < dp.m
  }

  predicate Reduced(p: Point, dp: Domain)
  {
    InField(p.x, dp) && InField(p.y, dp)
  }

  function Rhs(x: int, dp: Domain): int
  {
    x * x * x + dp.a * x + dp.b
  }

  predicate SolvesEquation(p: Point, dp: Domain)
    requires dp.m > 0
  {
    Cong(p.y * p.y, Rhs(p.x, dp), dp.m)
  }

  predicate OnCurve(p: Point, dp: Domain)
    requires dp.m > 0
  {
    Reduced(p, dp) && (p == Zero || SolvesEquation(p, dp))
  }

  lemma OriginOffCurve(dp: Domain)
    requires ValidDomain(dp)
    ensures !SolvesEquation(Zero, dp)
  {
    CloseNotCong(0, dp.b, dp.m);
  }

  lemma TwiceNonzero(v: int, m: int)
    requires IsPrime(m) && m > 3 && 0 < v < m
    ensures !Cong(v, 0, m) && !Cong(2 * v, 0, m)
  {
    CloseNotCong(v, 0, m);
    CloseNotCong(2, 0, m);
    ProductNonzero(2, v, m);
  }

  // -------------------------------------------------------- affine law

  /** num / den in the field. */
  function Slope(num: int, den: int, m: int): (l: int)
    requires IsPrime(m) && !Cong(den, 0, m)
    ensures 0 <= l < m && Cong(l * den, num, m)
  {
    SlopeCorrect(num, den, m);
    MulMod(num, InvMod(den, m), m)
  }

  lemma SlopeCorrect(num: int, den: int, m: int)
    requires IsPrime(m) && !Cong(den, 0, m)
    ensures Cong(MulMod(num, InvMod(den, m), m) * den, num, m)
  {
    var i := InvMod(den, m);
    var l := MulMod(num, i, m);
    hide Cong, MulMod, InvMod;
    Combine2(m, l * den, num, den, l, num * i, num, i * den, 1);
  }

  /** The third intersection of the line of slope l through (x, y) and a point
      with abscissa x', reflected. */
  function ThirdPoint(l: int, x: int, y: int, x': int, m: int): (r: Point)
    requires m > 0
    ensures 0 <= r.x < m && 0 <= r.y < m
    ensures Cong(r.x, l * l - x - x', m)
    ensures Cong(r.y, l * (x - r.x) - y, m)
  {
    CongResidue(l * l - x - x', m);
    var x3 := (l * l - x - x') % m;
    CongResidue(l * (x - x3) - y, m);
    Point(x3, (l * (x - x3) - y) % m)
  }

  /** Tangent law. */
  function Double(p: Point, dp: Domain): (r: Point)
    requires ValidDomain(dp) && Reduced(p, dp)
    ensures Reduced(r, dp)
  {
    if p.y == 0 then Zero else
      TwiceNonzero(p.y, dp.m);
      ThirdPoint(Slope(3 * p.x * p.x + dp.a, 2 * p.y, dp.m), p.x, p.y, p.x, dp.m)
  }

  /** Chord law, with the neutral element and the tangent as special cases. */
  function Add(p: Point, q: Point, dp: Domain): (r: Point)
    requires ValidDomain(dp) && Reduced(p, dp) && Reduced(q, dp)
    ensures Reduced(r, dp)
  {
    if q == Zero then p
    else if p == Zero then q
    else if p.x == q.x then (if p.y == q.y then Double(p, dp) else Zero)
    else
      CloseNotCong(p.x, q.x, dp.m);
      DifferenceNonzero(p.x, q.x, dp.m);
      ThirdPoint(Slope(p.y - q.y, p.x - q.x, dp.m), q.x, q.y, p.x, dp.m)
  }

  lemma DifferenceNonzero(a: int, b: int, m: int)
    requires m > 0 && !Cong(a, b, m)
    ensures !Cong(a - b, 0, m)
  {
  }

  /** The tangent's third point solves the equation: along the line the cubic is
      (X - x)^2 (X - x3). */
  lemma TangentEndSolves(x: int, y: int, a: int, b: int, l: int, x3: int, y3: int, m: int)
    requires m > 0 && Cong(y * y, x * x * x + a * x + b, m)
    requires Cong(l * (2 * y), 3 * x * x + a, m)
    requires Cong(x3, l * l - x - x, m) && Cong(y3, l * (x - x3) - y, m)
    ensures Cong(y3 * y3, x3 * x3 * x3 + a * x3 + b, m)
  {
    hide Cong;
    TangentIdentity(x, y, a, b, l, x3, y3);
    var d := x3 - x;
    Combine4(m, y3 * y3, x3 * x3 * x3 + a * x3 + b,
             y3 - (l * d + y), y3, l * (x - x3) - y,
             1, y * y, x * x * x + a * x + b,
             d, l * (2 * y), 3 * x * x + a,
             -(d * d), x3, l * l - x - x);
  }

  lemma DoubleSolves(p: Point, dp: Domain)
    requires ValidDomain(dp) && Reduced(p, dp) && SolvesEquation(p, dp) && p.y != 0
    ensures SolvesEquation(Double(p, dp), dp)
  {
    TwiceNonzero(p.y, dp.m);
    hide Cong, Slope, ThirdPoint, IsPrime;
    var r := Double(p, dp);
    TangentEndSolves(p.x, p.y, dp.a, dp.b, Slope(3 * p.x * p.x + dp.a, 2 * p.y, dp.m), r.x, r.y, dp.m);
  }

  lemma DoubleOnCurve(p: Point, dp: Domain)
    requires ValidDomain(dp) && OnCurve(p, dp)
    ensures OnCurve(Double(p, dp), dp)
  {
    if p.y != 0 { DoubleSolves(p, dp); }
  }

  lemma TangentIdentity(x: int, y: int, a: int, b: int, l: int, x3: int, y3: int)
    ensures
      var d := x3 - x;
      y3 * y3 - (x3 * x3 * x3 + a * x3 + b) ==
      (y3 - (l * d + y)) * (y3 - (l * (x - x3) - y)) + 1 * (y * y - (x * x * x + a * x + b))
      + d * (l * (2 * y) - (3 * x * x + a)) + -(d * d) * (x3 - (l * l - x - x))
  {
    var d := x3 - x;
    LineSquared(y3, l, d, y);
    assert l * (x - x3) - y == -(l * d + y);
    CubicShift(x, d, a, b);
  }

  lemma LineSquared(y3: int, l: int, d: int, y: int)
    ensures (y3 - (l * d + y)) * (y3 - -(l * d + y)) == y3 * y3 - (l * l * (d * d) + 2 * l * d * y + y * y)
  {
    var w := l * d + y;
    assert (y3 - w) * (y3 + w) == y3 * y3 - w * w;
  }

  lemma CubicShift(x: int, d: int, a: int, b: int)
    ensures var x3 := x + d;
            x3 * x3 * x3 + a * x3 + b ==
            (x * x * x + a * x + b) + d * (3 * x * x + a) + 3 * x * (d * d) + d * (d * d)
  {
  }

  /** The chord meets the curve: 2*l*y2 + l^2*e = x1^2 + x1*x2 + x2^2 + a, with
      e = x1 - x2, after cancelling e from the difference of the two equations. */
  lemma ChordEquation(x1: int, y1: int, x2: int, y2: int, l: int, dp: Domain)
    requires ValidDomain(dp)
    requires SolvesEquation(Point(x1, y1), dp) && SolvesEquation(Point(x2, y2), dp)
    requires !Cong(x1 - x2, 0, dp.m) && Cong(l * (x1 - x2), y1 - y2, dp.m)
    ensures Cong(2 * l * y2 + l * l * (x1 - x2), x1 * x1 + x1 * x2 + x2 * x2 + dp.a, dp.m)
  {
    hide Cong;
    var e := x1 - x2;
    var f, g := 2 * l * y2 + l * l * e, x1 * x1 + x1 * x2 + x2 * x2 + dp.a;
    ChordIdentity(x1, y1, x2, y2, dp.a, dp.b, l);
    Combine3(dp.m, e * f, e * g, l * e + y1 + y2, l * e, y1 - y2,
             1, y1 * y1, Rhs(x1, dp), -1, y2 * y2, Rhs(x2, dp));
    CancelFactor(e, f, g, dp.m);
  }

  lemma ChordIdentity(x1: int, y1: int, x2: int, y2: int, a: int, b: int, l: int)
    ensures
      var e := x1 - x2;
      e * (2 * l * y2 + l * l * e) - e * (x1 * x1 + x1 * x2 + x2 * x2 + a) ==
      (l * e + y1 + y2) * (l * e - (y1 - y2))
      + 1 * (y1 * y1 - (x1 * x1 * x1 + a * x1 + b)) + -1 * (y2 * y2 - (x2 * x2 * x2 + a * x2 + b))
  {
    var e := x1 - x2;
    var u, v := l * e, y1 - y2;
    assert e * (2 * l * y2 + l * l * e) == 2 * u * y2 + u * u;
    assert (u + y1 + y2) * (u - v) == 2 * u * y2 + u * u - (y1 * y1 - y2 * y2);
    assert e * (x1 * x1 + x1 * x2 + x2 * x2 + a) == x1 * x1 * x1 - x2 * x2 * x2 + a * x1 - a * x2;
  }

  lemma ChordEndSolves(x1: int, x2: int, y2: int, a: int, b: int, l: int, x3: int, y3: int, m: int)
    requires m > 0 && Cong(y2 * y2, x2 * x2 * x2 + a * x2 + b, m)
    requires Cong(2 * l * y2 + l * l * (x1 - x2), x1 * x1 + x1 * x2 + x2 * x2 + a, m)
    requires Cong(x3, l * l - x2 - x1, m) && Cong(y3, l * (x2 - x3) - y2, m)
    ensures Cong(y3 * y3, x3 * x3 * x3 + a * x3 + b, m)
  {
    hide Cong;
    SecantIdentity(x1, x2, y2, a, b, l, x3, y3);
    var d, e := x3 - x2, x1 - x2;
    Combine4(m, y3 * y3, x3 * x3 * x3 + a * x3 + b,
             y3 - (l * d + y2), y3, l * (x2 - x3) - y2,
             1, y2 * y2, x2 * x2 * x2 + a * x2 + b,
             d, 2 * l * y2 + l * l * e, x1 * x1 + x1 * x2 + x2 * x2 + a,
             d * e - d * d, x3, l * l - x2 - x1);
  }

  lemma ChordSolves(p: Point, q: Point, dp: Domain)
    requires ValidDomain(dp) && Reduced(p, dp) && Reduced(q, dp) && p != Zero && q != Zero && p.x != q.x
    requires SolvesEquation(p, dp) && SolvesEquation(q, dp)
    ensures SolvesEquation(Add(p, q, dp), dp)
  {
    CloseNotCong(p.x, q.x, dp.m);
    DifferenceNonzero(p.x, q.x, dp.m);
    hide Cong, Slope, ThirdPoint, IsPrime;
    var l := Slope(p.y - q.y, p.x - q.x, dp.m);
    var r := Add(p, q, dp);
    ChordEquation(p.x, p.y, q.x, q.y, l, dp);
    ChordEndSolves(p.x, q.x, q.y, dp.a, dp.b, l, r.x, r.y, dp.m);
  }

  lemma AddOnCurve(p: Point, q: Point, dp: Domain)
    requires ValidDomain(dp) && OnCurve(p, dp) && OnCurve(q, dp)
    ensures OnCurve(Add(p, q, dp), dp)
  {
    if q != Zero && p != Zero {
      if p.x == q.x {
        DoubleOnCurve(p, dp);
      } else {
        ChordSolves(p, q, dp);
      }
    }
  }

  lemma SecantIdentity(x1: int, x2: int, y2: int, a: int, b: int, l: int, x3: int, y3: int)
    ensures
      var d, e := x3 - x2, x1 - x2;
      y3 * y3 - (x3 * x3 * x3 + a * x3 + b) ==
      (y3 - (l * d + y2)) * (y3 - (l * (x2 - x3) - y2)) + 1 * (y2 * y2 - (x2 * x2 * x2 + a * x2 + b))
      + d * (2 * l * y2 + l * l * e - (x1 * x1 + x1 * x2 + x2 * x2 + a)) + (d * e - d * d) * (x3 - (l * l - x2 - x1))
  {
    var d, e := x3 - x2, x1 - x2;
    LineSquared(y3, l, d, y2);
    assert l * (x2 - x3) - y2 == -(l * d + y2);
    CubicShift(x2, d, a, b);
    assert x1 * x1 + x1 * x2 + x2 * x2 == 3 * x2 * x2 + 3 * x2 * e + e * e;
    SecantRest(l * l, 2 * l * y2, x2, 3 * x2 * x2 + a, d, e);
    assert 2 * l * d * y2 == d * (2 * l * y2);
  }

  lemma SecantRest(s: int, t: int, x: int, c: int, d: int, e: int)
    ensures d * (t - c) + d * d * (s - 3 * x - d) ==
            d * (t + s * e - (c + 3 * x * e + e * e)) + (d * e - d * d) * (x + d - (s - x - (x + e)))
  {
    var g := 3 * x + d + e - s;
    assert s * e - 3 * x * e - e * e == e * (d - g);
    assert d * (e * (d - g)) + (d * e - d * d) * g == d * d * (e - g);
  }

  /** The chord through two points has one slope and one third point, whichever
      end it is drawn from. */
  lemma ChordSymmetric(p: Point, q: Point, l: int, k: int, r: Point, s: Point, m: int)
    requires IsPrime(m) && !Cong(p.x - q.x, 0, m) && 0 <= l < m && 0 <= k < m
    requires Cong(l * (p.x - q.x), p.y - q.y, m) && Cong(k * (q.x - p.x), q.y - p.y, m)
    requires r == ThirdPoint(l, q.x, q.y, p.x, m) && s == ThirdPoint(k, p.x, p.y, q.x, m)
    ensures r == s
  {
    hide Cong;
    Combine2(m, (p.x - q.x) * l, (p.x - q.x) * k, 1, l * (p.x - q.x), p.y - q.y, 1, k * (q.x - p.x), q.y - p.y);
    CancelFactor(p.x - q.x, l, k, m);
    SameFieldElement(l, k, m);
    assert r.x == s.x;
    hide ThirdPoint;
    Combine3(m, r.y, s.y, 1, r.y, l * (q.x - r.x) - q.y, -1, s.y, l * (p.x - r.x) - p.y, -1, l * (p.x - q.x),
      p.y - q.y);
    SameFieldElement(r.y, s.y, m);
  }

  lemma AddCommutes(p: Point, q: Point, dp: Domain)
    requires ValidDomain(dp) && Reduced(p, dp) && Reduced(q, dp)
    ensures Add(p, q, dp) == Add(q, p, dp)
  {
    if p != Zero && q != Zero && p.x != q.x {
      CloseNotCong(p.x, q.x, dp.m);
      CloseNotCong(q.x, p.x, dp.m);
      DifferenceNonzero(p.x, q.x, dp.m);
      DifferenceNonzero(q.x, p.x, dp.m);
      ChordSymmetric(p, q, Slope(p.y - q.y, p.x - q.x, dp.m), Slope(q.y - p.y, q.x - p.x, dp.m),
                     Add(p, q, dp), Add(q, p, dp), dp.m);
    }
  }

  // -------------------------------------------------------- Jacobian law

  predicate JacobianReduced(j: Jacobian, dp: Domain)
  {
    InField(j.x, dp) && InField(j.y, dp) && InField(j.z, dp)
  }

  /** (X, Y, Z) stands for (X / Z^2, Y / Z^3), and for zero when Z is 0. */
  function ToAffine(j: Jacobian, dp: Domain): (r: Point)
    requires ValidDomain(dp) && JacobianReduced(j, dp)
    ensures Reduced(r, dp) && Represents(j, r, dp)
  {
    if j.z == 0 then Zero else
      TwiceNonzero(j.z, dp.m);
      var h := InvMod(j.z, dp.m);
      CongResidue(j.x * h * h, dp.m);
      CongResidue(j.y * h * h * h, dp.m);
      var r := Point((j.x * h * h) % dp.m, (j.y * h * h * h) % dp.m);
      ToAffineRepresents(j, h, r, dp.m);
      r
  }

  ghost predicate Represents(j: Jacobian, p: Point, dp: Domain)
    requires dp.m > 0
  {
    if j.z == 0 then p == Zero else
      Cong(p.x * (j.z * j.z), j.x, dp.m) && Cong(p.y * (j.z * j.z * j.z), j.y, dp.m)
  }

  lemma ToAffineRepresents(j: Jacobian, h: int, r: Point, m: int)
    requires m > 0 && Cong(h * j.z, 1, m)
    requires Cong(r.x, j.x * h * h, m) && Cong(r.y, j.y * h * h * h, m)
    ensures Cong(r.x * (j.z * j.z), j.x, m) && Cong(r.y * (j.z * j.z * j.z), j.y, m)
  {
    hide Cong;
    var z, u := j.z, h * j.z;
    UndoSquare(r.x, j.x, h, z);
    Combine2(m, r.x * (z * z), j.x, z * z, r.x, j.x * h * h, j.x * (u + 1), u, 1);
    UndoCube(r.y, j.y, h, z);
    Combine2(m, r.y * (z * z * z), j.y, z * z * z, r.y, j.y * h * h * h, j.y * (u * u + u + 1), u, 1);
  }

  lemma UndoSquare(x: int, xj: int, h: int, z: int)
    ensures x * (z * z) - xj == (z * z) * (x - xj * h * h) + (xj * (h * z + 1)) * (h * z - 1)
  {
    var u := h * z;
    assert (xj * (u + 1)) * (u - 1) == xj * (u * u) - xj;
    assert (z * z) * (xj * h * h) == xj * (u * u);
  }

  lemma UndoCube(y: int, yj: int, h: int, z: int)
    ensures y * (z * z * z) - yj
      == (z * z * z) * (y - yj * h * h * h) + (yj * ((h * z) * (h * z) + h * z + 1)) * (h * z - 1)
  {
    var u := h * z;
    assert (yj * (u * u + u + 1)) * (u - 1) == yj * (u * u * u) - yj;
    assert (z * z * z) * (yj * h * h * h) == yj * (u * u * u);
  }

  /** A reduced point is determined by any triple that represents it. */
  lemma RepresentsUnique(j: Jacobian, p: Point, q: Point, dp: Domain)
    requires ValidDomain(dp) && JacobianReduced(j, dp) && Reduced(p, dp) && Reduced(q, dp)
    requires Represents(j, p, dp) && Represents(j, q, dp)
    ensures p == q
  {
    if j.z != 0 {
      var m, z := dp.m, j.z;
      PowersNonzero(z, m);
      hide Cong;
      Combine2(m, (z * z) * p.x, (z * z) * q.x, 1, p.x * (z * z), j.x, -1, q.x * (z * z), j.x);
      CancelFactor(z * z, p.x, q.x, m);
      Combine2(m, (z * z * z) * p.y, (z * z * z) * q.y, 1, p.y * (z * z * z), j.y, -1, q.y * (z * z * z), j.y);
      CancelFactor(z * z * z, p.y, q.y, m);
      SameFieldElement(p.x, q.x, m);
      SameFieldElement(p.y, q.y, m);
    }
  }

  function JacobianDouble(j: Jacobian, dp: Domain): (r: Jacobian)
    requires dp.m > 0 && JacobianReduced(j, dp)
    ensures JacobianReduced(r, dp)
  {
    if j.z == 0 then j
    else if j.y == 0 then j.(z := 0)
    else
      var t := 3 * j.x * j.x + dp.a * (j.z * j.z * j.z * j.z);
      var s := 4 * j.x * (j.y * j.y);
      var x := (t * t - 2 * s) % dp.m;
      Jacobian(x, (t * (s - x) - 8 * (j.y * j.y * j.y * j.y)) % dp.m, (2 * j.y * j.z) % dp.m)
  }

  /** The affine coordinates brought to the denominator of j. */
  function ScaledX(x: int, z: int, m: int): (r: int)
    requires m > 0
    ensures 0 <= r < m && Cong(r, x * (z * z), m)
  {
    CongResidue(x * (z * z), m);
    (x * (z * z)) % m
  }

  function ScaledY(y: int, z: int, m: int): (r: int)
    requires m > 0
    ensures 0 <= r < m && Cong(r, y * (z * z * z), m)
  {
    CongResidue(y * (z * z * z), m);
    (y * (z * z * z)) % m
  }

  function JacobianChord(j: Jacobian, x2: int, y2: int, m: int): (r: Jacobian)
    requires m > 0
    ensures 0 <= r.x < m && 0 <= r.y < m && 0 <= r.z < m
    ensures Cong(r.z, j.z * (j.x - x2), m)
    ensures var u, v := j.x - x2, j.y - y2;
            && Cong(r.x, v * v - u * u * u - 2 * (x2 * (u * u)), m)
            && Cong(r.y, v * (x2 * (u * u) - r.x) - y2 * (u * u * u), m)
  {
    var u, v := j.x - x2, j.y - y2;
    var t := x2 * (u * u);
    var x := (v * v - u * u * u - 2 * t) % m;
    CongResidue(v * v - u * u * u - 2 * t, m);
    CongResidue(v * (t - x) - y2 * (u * u * u), m);
    CongResidue(j.z * u, m);
    Jacobian(x, (v * (t - x) - y2 * (u * u * u)) % m, (j.z * u) % m)
  }

  function JacobianAddAffine(j: Jacobian, q: Point, dp: Domain): (r: Jacobian)
    requires dp.m > 1 && JacobianReduced(j, dp) && Reduced(q, dp)
    ensures JacobianReduced(r, dp)
  {
    if q == Zero then j
    else if j.z == 0 then Jacobian(q.x, q.y, 1)
    else
      var x2, y2 := ScaledX(q.x, j.z, dp.m), ScaledY(q.y, j.z, dp.m);
      if j.x == x2 then (if j.y == y2 then JacobianDouble(j, dp) else j.(z := 0))
      else JacobianChord(j, x2, y2, dp.m)
  }

  /** The slope of the tangent, scaled: t = l * Z' where Z' = 2*Y*Z. */
  lemma DoubleCommutes(j: Jacobian, dp: Domain)
    requires ValidDomain(dp) && JacobianReduced(j, dp)
    ensures ToAffine(JacobianDouble(j, dp), dp) == Double(ToAffine(j, dp), dp)
  {
    var p := ToAffine(j, dp);
    var k := JacobianDouble(j, dp);
    if j.z != 0 {
      OrdinateZero(j, p, dp);
      if j.y != 0 {
        TwiceNonzero(p.y, dp.m);
        var l := Slope(3 * p.x * p.x + dp.a, 2 * p.y, dp.m);
        var t := 3 * j.x * j.x + dp.a * (j.z * j.z * j.z * j.z);
        var s := 4 * j.x * (j.y * j.y);
        CongResidue(t * t - 2 * s, dp.m);
        CongResidue(t * (s - k.x) - 8 * (j.y * j.y * j.y * j.y), dp.m);
        CongResidue(2 * j.y * j.z, dp.m);
        DoubledOrdinateNonzero(j, k.z, dp);
        DoubleRepresents(j, p, l, t, s, k, Double(p, dp), dp);
        RepresentsUnique(k, ToAffine(k, dp), Double(p, dp), dp);
      }
    }
  }

  lemma OrdinateZero(j: Jacobian, p: Point, dp: Domain)
    requires ValidDomain(dp) && JacobianReduced(j, dp) && Reduced(p, dp) && j.z != 0
    requires Represents(j, p, dp)
    ensures p.y == 0 <==> j.y == 0
  {
    var m, z := dp.m, j.z;
    PowersNonzero(z, m);
    hide Cong;
    if p.y == 0 {
      assert p.y * (z * z * z) == 0;
      CongSym(0, j.y, m);
      SameFieldElement(j.y, 0, m);
    } else if j.y == 0 {
      TwiceNonzero(p.y, m);
      ProductNonzero(p.y, z * z * z, m);
      assert false;
    }
  }

  lemma DoubledOrdinateNonzero(j: Jacobian, z': int, dp: Domain)
    requires ValidDomain(dp) && JacobianReduced(j, dp) && j.z != 0 && j.y != 0
    requires 0 <= z' < dp.m && Cong(z', 2 * j.y * j.z, dp.m)
    ensures z' != 0
  {
    TwiceNonzero(j.y, dp.m);
    TwiceNonzero(j.z, dp.m);
    ProductNonzero(2 * j.y, j.z, dp.m);
    hide Cong;
    if z' == 0 {
      CongSym(0, 2 * j.y * j.z, dp.m);
      assert false;
    }
  }

  lemma DoubleRepresents(j: Jacobian, p: Point, l: int, t: int, s: int, k: Jacobian, r: Point, dp: Domain)
    requires dp.m > 0 && j.z != 0 && k.z != 0 && Represents(j, p, dp)
    requires Cong(l * (2 * p.y), 3 * p.x * p.x + dp.a, dp.m)
    requires t == 3 * j.x * j.x + dp.a * (j.z * j.z * j.z * j.z) && s == 4 * j.x * (j.y * j.y)
    requires Cong(k.x, t * t - 2 * s, dp.m) && Cong(k.z, 2 * j.y * j.z, dp.m)
    requires Cong(k.y, t * (s - k.x) - 8 * (j.y * j.y * j.y * j.y), dp.m)
    requires Cong(r.x, l * l - p.x - p.x, dp.m) && Cong(r.y, l * (p.x - r.x) - p.y, dp.m)
    ensures Represents(k, r, dp)
  {
    hide Cong;
    var m, z, w := dp.m, j.z, k.z;
    var zz := z * z;
    // t = l * w
    ScaledSlope(p.x, p.y, dp.a, l, j.x, j.y, z, w);
    Combine4(m, t, l * w,
             -3 * (j.x + p.x * zz), p.x * zz, j.x,
             -(zz * zz), l * (2 * p.y), 3 * p.x * p.x + dp.a,
             2 * l * z, p.y * (zz * z), j.y,
             -l, w, 2 * j.y * z);
    // s = p.x * w^2
    ScaledAbscissa(p.x, j.x, j.y, z, w);
    Combine2(m, s, p.x * (w * w), -4 * (j.y * j.y), p.x * zz, j.x, -p.x * (w + 2 * j.y * z), w, 2 * j.y * z);
    // 8*Y^4 = p.y * w^3
    ScaledOrdinate(p.y, j.y, z, w);
    Combine2(m, 8 * (j.y * j.y * j.y * j.y), p.y * (w * w * w),
             -8 * (j.y * j.y * j.y), p.y * (zz * z), j.y,
             -p.y * (w * w + w * (2 * j.y * z) + (2 * j.y * z) * (2 * j.y * z)), w, 2 * j.y * z);
    Rescale(m, l, p.x, p.y, p.x, w, t, s, 2 * s, 8 * (j.y * j.y * j.y * j.y), k.x, k.y, r.x, r.y) by {
      Combine1(m, 2 * s, (p.x + p.x) * (w * w), 2, s, p.x * (w * w));
    }
  }

  /** The common tail of both laws. With slope t = l*w, s = x*w^2,
      c = (x + x')*w^2 and f = y*w^3, the scaled third point is the third point. */
  lemma Rescale(m: int, l: int, x: int, y: int, x': int, w: int, t: int, s: int, c: int, f: int,
                kx: int, ky: int, rx: int, ry: int)
    requires m > 0
    requires Cong(t, l * w, m) && Cong(s, x * (w * w), m)
    requires Cong(c, (x + x') * (w * w), m) && Cong(f, y * (w * w * w), m)
    requires Cong(kx, t * t - c, m) && Cong(ky, t * (s - kx) - f, m)
    requires Cong(rx, l * l - x - x', m) && Cong(ry, l * (x - rx) - y, m)
    ensures Cong(rx * (w * w), kx, m) && Cong(ry * (w * w * w), ky, m)
  {
    hide Cong;
    RescaleX(l, x, x', w, t, c, kx, rx);
    Combine4(m, rx * (w * w), kx, w * w, rx, l * l - x - x', -(t + l * w), t, l * w,
             1, c, (x + x') * (w * w), -1, kx, t * t - c);
    RescaleY(l, x, y, w, t, s, f, kx, ky, rx, ry);
    Combine6(m, ry * (w * w * w), ky, w * w * w, ry, l * (x - rx) - y,
             -(s - kx), t, l * w, -(l * w), s, x * (w * w),
             1, f, y * (w * w * w), -1, ky, t * (s - kx) - f, -(l * w), rx * (w * w), kx);
  }

  lemma RescaleX(l: int, x: int, x': int, w: int, t: int, c: int, kx: int, rx: int)
    ensures rx * (w * w) - kx == (w * w) * (rx - (l * l - x - x')) + -(t + l * w) * (t - l * w)
                                 + 1 * (c - (x + x') * (w * w)) + -1 * (kx - (t * t - c))
  {
    assert -(t + l * w) * (t - l * w) == -(t * t) + l * l * (w * w);
    assert (w * w) * (l * l - x - x') == l * l * (w * w) - (x + x') * (w * w);
  }

  lemma RescaleY(l: int, x: int, y: int, w: int, t: int, s: int, f: int, kx: int, ky: int, rx: int, ry: int)
    ensures ry * (w * w * w) - ky ==
            (w * w * w) * (ry - (l * (x - rx) - y)) + -(s - kx) * (t - l * w) + -(l * w) * (s - x * (w * w))
            + 1 * (f - y * (w * w * w)) + -1 * (ky - (t * (s - kx) - f)) + -(l * w) * (rx * (w * w) - kx)
  {
    var q := l * w;
    assert (w * w * w) * (l * (x - rx) - y) == q * (x * (w * w)) - q * (rx * (w * w)) - y * (w * w * w);
    assert (s - kx) * (t - q) == t * (s - kx) - q * s + q * kx;
  }

  lemma ScaledSlope(x: int, y: int, a: int, l: int, xj: int, yj: int, z: int, w: int)
    ensures
      3 * xj * xj + a * (z * z * z * z) - l * w ==
      -3 * (xj + x * (z * z)) * (x * (z * z) - xj) + -((z * z) * (z * z)) * (l * (2 * y) - (3 * x * x + a))
      + 2 * l * z * (y * (z * z * z) - yj) + -l * (w - 2 * yj * z)
  {
    var v := z * z;
    assert (xj + x * v) * (x * v - xj) == x * x * (v * v) - xj * xj;
    assert 2 * l * z * (y * (z * z * z)) == (v * v) * (l * (2 * y)) by {
      assert z * (z * z * z) == v * v;
    }
  }

  lemma ScaledAbscissa(x: int, xj: int, yj: int, z: int, w: int)
    ensures 4 * xj * (yj * yj) - x * (w * w) ==
            -4 * (yj * yj) * (x * (z * z) - xj) + -x * (w + 2 * yj * z) * (w - 2 * yj * z)
  {
    var u := 2 * yj * z;
    assert (w + u) * (w - u) == w * w - u * u;
    assert -x * (w + u) * (w - u) == -x * ((w + u) * (w - u));
    assert u * u == 4 * (yj * yj) * (z * z);
  }

  lemma CubeDifference(w: int, u: int)
    ensures (w * w + w * u + u * u) * (w - u) == w * w * w - u * u * u
  {
  }

  lemma ScaledOrdinate(y: int, yj: int, z: int, w: int)
    ensures 8 * (yj * yj * yj * yj) - y * (w * w * w) ==
            -8 * (yj * yj * yj) * (y * (z * z * z) - yj)
            + -y * (w * w + w * (2 * yj * z) + (2 * yj * z) * (2 * yj * z)) * (w - 2 * yj * z)
  {
    var q, z3 := yj * yj * yj, z * z * z;
    DoubledCube(yj, z);
    ScaledCube(y, yj, 8 * q, z3, w, 2 * yj * z);
    ScaledDifference(q, yj, y * z3);
  }

  lemma DoubledCube(yj: int, z: int)
    ensures (2 * yj * z) * (2 * yj * z) * (2 * yj * z) == (8 * (yj * yj * yj)) * (z * z * z)
  {
    CubeOfProduct(yj, z);
    var g := yj * z;
    assert 2 * yj * z == 2 * g;
    TwiceCubed(g);
  }

  lemma TwiceCubed(g: int)
    ensures (2 * g) * (2 * g) * (2 * g) == 8 * (g * g * g)
  {
  }

  lemma ScaledDifference(q: int, c: int, d: int)
    ensures (8 * q) * (c - d) == -8 * q * (d - c)
    ensures c * (8 * q) == 8 * (q * c)
  {
  }

  lemma AddAffineCommutes(j: Jacobian, q: Point, dp: Domain)
    requires ValidDomain(dp) && JacobianReduced(j, dp) && Reduced(q, dp)
    requires j.z != 0 ==> ToAffine(j, dp) != Zero
    ensures ToAffine(JacobianAddAffine(j, q, dp), dp) == Add(ToAffine(j, dp), q, dp)
  {
    var m := dp.m;
    var p := ToAffine(j, dp);
    var k := JacobianAddAffine(j, q, dp);
    if q == Zero {
    } else if j.z == 0 {
      assert k == Jacobian(q.x, q.y, 1);
      CongSelf(q.x, m);
      CongSelf(q.y, m);
      assert Represents(k, q, dp);
      RepresentsUnique(k, ToAffine(k, dp), q, dp);
    } else {
      var zz := j.z * j.z;
      var x2, y2 := ScaledX(q.x, j.z, m), ScaledY(q.y, j.z, m);
      PowersNonzero(j.z, m);
      SameScaled(p.x, q.x, zz, j.x, x2, m);
      SameScaled(p.y, q.y, zz * j.z, j.y, y2, m);
      if p.x == q.x {
        DoubleCommutes(j, dp);
      } else {
        ChordCommutes(j, p, q, x2, y2, dp);
      }
    }
  }

  lemma ChordCommutes(j: Jacobian, p: Point, q: Point, x2: int, y2: int, dp: Domain)
    requires ValidDomain(dp) && JacobianReduced(j, dp) && Reduced(q, dp)
    requires j.z != 0 && p == ToAffine(j, dp) && p != Zero && q != Zero && p.x != q.x
    requires x2 == ScaledX(q.x, j.z, dp.m) && y2 == ScaledY(q.y, j.z, dp.m) && j.x != x2
    ensures ToAffine(JacobianAddAffine(j, q, dp), dp) == Add(p, q, dp)
  {
    var m, k := dp.m, JacobianAddAffine(j, q, dp);
    CloseNotCong(p.x, q.x, m);
    DifferenceNonzero(p.x, q.x, m);
    hide Cong, ScaledX, ScaledY, JacobianChord, Slope, ThirdPoint, IsPrime;
    var l := Slope(p.y - q.y, p.x - q.x, m);
    AddedZNonzero(j, x2, k.z, dp);
    AddRepresents(j, p, q, l, x2, y2, k, Add(p, q, dp), dp);
    RepresentsUnique(k, ToAffine(k, dp), Add(p, q, dp), dp);
  }

  /** Comparing against a coordinate scaled by the unit w compares the coordinates. */
  lemma SameScaled(a: int, b: int, w: int, xj: int, c: int, m: int)
    requires IsPrime(m) && !Cong(w, 0, m)
    requires 0 <= a < m && 0 <= b < m && 0 <= xj < m && 0 <= c < m
    requires Cong(a * w, xj, m) && Cong(c, b * w, m)
    ensures xj == c <==> a == b
  {
    hide Cong;
    if xj == c {
      Combine2(m, w * a, w * b, 1, a * w, xj, 1, c, b * w);
      CancelFactor(w, a, b, m);
      SameFieldElement(a, b, m);
    } else if a == b {
      Combine2(m, xj, c, -1, a * w, xj, -1, c, b * w);
      SameFieldElement(xj, c, m);
    }
  }

  lemma PowersNonzero(z: int, m: int)
    requires IsPrime(m) && m > 3 && 0 < z < m
    ensures !Cong(z, 0, m) && !Cong(z * z, 0, m) && !Cong(z * z * z, 0, m)
  {
    TwiceNonzero(z, m);
    ProductNonzero(z, z, m);
    ProductNonzero(z * z, z, m);
  }

  lemma AddedZNonzero(j: Jacobian, x2: int, z': int, dp: Domain)
    requires ValidDomain(dp) && JacobianReduced(j, dp) && j.z != 0 && InField(x2, dp) && j.x != x2
    requires 0 <= z' < dp.m && Cong(z', j.z * (j.x - x2), dp.m)
    ensures z' != 0
  {
    TwiceNonzero(j.z, dp.m);
    CloseNotCong(j.x, x2, dp.m);
    DifferenceNonzero(j.x, x2, dp.m);
    ProductNonzero(j.z, j.x - x2, dp.m);
    hide Cong;
    if z' == 0 {
      CongSym(0, j.z * (j.x - x2), dp.m);
      assert false;
    }
  }

  /** With U = xj - x2*Z^2 and V = yj - y2*Z^3 the scaled slope is V = l * (Z*U). */
  lemma AddRepresents(j: Jacobian, p: Point, q: Point, l: int, x2: int, y2: int, k: Jacobian, r: Point, dp: Domain)
    requires dp.m > 0 && j.z != 0 && k.z != 0 && Represents(j, p, dp)
    requires Cong(x2, q.x * (j.z * j.z), dp.m) && Cong(y2, q.y * (j.z * j.z * j.z), dp.m)
    requires Cong(l * (p.x - q.x), p.y - q.y, dp.m)
    requires var u, v := j.x - x2, j.y - y2;
             && Cong(k.x, v * v - u * u * u - 2 * (x2 * (u * u)), dp.m)
             && Cong(k.y, v * (x2 * (u * u) - k.x) - y2 * (u * u * u), dp.m)
             && Cong(k.z, j.z * u, dp.m)
    requires Cong(r.x, l * l - q.x - p.x, dp.m) && Cong(r.y, l * (q.x - r.x) - q.y, dp.m)
    ensures Represents(k, r, dp)
  {
    hide Cong;
    var m, z, w := dp.m, j.z, k.z;
    var u, v := j.x - x2, j.y - y2;
    var t := x2 * (u * u);
    // u = (p.x - q.x) * z^2
    Combine2(m, u, (p.x - q.x) * (z * z), -1, p.x * (z * z), j.x, -1, x2, q.x * (z * z));
    // v = l * w
    ChordSlope(p.x, p.y, q.x, q.y, l, j.y, y2, u, v, z, w);
    Combine5(m, v, l * w, -1, p.y * (z * z * z), j.y, -1, y2, q.y * (z * z * z),
             -(z * z * z), l * (p.x - q.x), p.y - q.y, -l * z, u, (p.x - q.x) * (z * z), -l, w, z * u);
    // t = q.x * w^2
    ChordAbscissa(q.x, x2, u, z, w);
    Combine2(m, t, q.x * (w * w), u * u, x2, q.x * (z * z), -q.x * (w + z * u), w, z * u);
    // y2*u^3 = q.y * w^3
    ChordOrdinate(q.y, y2, u, z, w);
    Combine2(m, y2 * (u * u * u), q.y * (w * w * w), u * u * u, y2, q.y * (z * z * z),
             -q.y * (w * w + w * (z * u) + (z * u) * (z * u)), w, z * u);
    // u^3 + 2t = (q.x + p.x) * w^2
    ChordSum(p.x, q.x, x2, u, z, w);
    Combine3(m, u * u * u + 2 * t, (q.x + p.x) * (w * w),
             u * u, u, (p.x - q.x) * (z * z), 2 * (u * u), x2, q.x * (z * z),
             -(q.x + p.x) * (w + z * u), w, z * u);
    Rescale(m, l, q.x, q.y, p.x, w, v, t, u * u * u + 2 * t, y2 * (u * u * u), k.x, k.y, r.x, r.y);
  }

  lemma ChordSlope(x1: int, y1: int, x2: int, y2: int, l: int, yj: int, c: int, u: int, v: int, z: int, w: int)
    requires v == yj - c
    ensures v - l * w == -1 * (y1 * (z * z * z) - yj) + -1 * (c - y2 * (z * z * z))
                         + -(z * z * z) * (l * (x1 - x2) - (y1 - y2)) + -l * z * (u - (x1 - x2) * (z * z))
                           + -l * (w - z * u)
  {
    assert (z * z * z) * (l * (x1 - x2)) == l * z * ((x1 - x2) * (z * z));
    assert (z * z * z) * (y1 - y2) == y1 * (z * z * z) - y2 * (z * z * z);
    assert l * z * u == l * (z * u);
  }

  lemma ChordAbscissa(x: int, c: int, u: int, z: int, w: int)
    ensures c * (u * u) - x * (w * w) == (u * u) * (c - x * (z * z)) + -x * (w + z * u) * (w - z * u)
  {
    var g := z * u;
    assert -x * (w + g) * (w - g) == -x * (w * w) + x * (g * g);
    assert g * g == (u * u) * (z * z);
  }

  lemma ChordOrdinate(y: int, c: int, u: int, z: int, w: int)
    ensures c * (u * u * u) - y * (w * w * w) ==
            (u * u * u) * (c - y * (z * z * z)) + -y * (w * w + w * (z * u) + (z * u) * (z * u)) * (w - z * u)
  {
    CubeOfProduct(z, u);
    ScaledCube(y, c, u * u * u, z * z * z, w, z * u);
  }

  lemma CubeOfProduct(z: int, u: int)
    ensures (z * u) * (z * u) * (z * u) == (u * u * u) * (z * z * z)
  {
    assert (z * u) * (z * u) == (z * z) * (u * u);
  }

  lemma ScaledCube(y: int, c: int, u3: int, z3: int, w: int, g: int)
    requires g * g * g == u3 * z3
    ensures c * u3 - y * (w * w * w) == u3 * (c - y * z3) + -y * (w * w + w * g + g * g) * (w - g)
  {
    CubeDifference(w, g);
    var h := w * w + w * g + g * g;
    assert -y * h * (w - g) == -y * (h * (w - g));
    assert u3 * (y * z3) == y * (u3 * z3);
  }

  lemma ChordSum(x1: int, x2: int, c: int, u: int, z: int, w: int)
    ensures u * u * u + 2 * (c * (u * u)) - (x2 + x1) * (w * w) ==
            (u * u) * (u - (x1 - x2) * (z * z)) + 2 * (u * u) * (c - x2 * (z * z))
            + -(x2 + x1) * (w + z * u) * (w - z * u)
  {
    SquareOfProduct(z, u);
    ScaledSum(x1, x2, c, u, u * u, z * z, w, z * u);
  }

  lemma ScaledSum(x1: int, x2: int, c: int, u: int, u2: int, z2: int, w: int, g: int)
    requires g * g == u2 * z2
    ensures u2 * u + 2 * (c * u2) - (x2 + x1) * (w * w) ==
            u2 * (u - (x1 - x2) * z2) + 2 * u2 * (c - x2 * z2) + -(x2 + x1) * (w + g) * (w - g)
  {
    SquareDifference(x2 + x1, w, g);
    SumOfScaled(x1, x2, c, u, u2, z2);
  }

  lemma SquareDifference(a: int, w: int, g: int)
    ensures -a * (w + g) * (w - g) == -a * (w * w) + a * (g * g)
  {
    assert (w + g) * (w - g) == w * w - g * g;
    assert -a * (w + g) * (w - g) == -a * ((w + g) * (w - g));
  }

  lemma SquareOfProduct(z: int, u: int)
    ensures (z * u) * (z * u) == (u * u) * (z * z)
  {
  }

  lemma SumOfScaled(x1: int, x2: int, c: int, u: int, u2: int, z2: int)
    ensures u2 * (u - (x1 - x2) * z2) + 2 * u2 * (c - x2 * z2) == u2 * u + 2 * (c * u2) - (x2 + x1) * (u2 * z2)
  {
    assert u2 * ((x1 - x2) * z2) == x1 * (u2 * z2) - x2 * (u2 * z2);
    assert u2 * (x2 * z2) == x2 * (u2 * z2);
    assert 2 * u2 * (c - x2 * z2) == 2 * (c * u2) - 2 * (u2 * (x2 * z2));
  }

  /** A nonzero Z never stands for the origin: what lets the Jacobian routines
      test Z where the affine ones test for (0, 0). */
  ghost predicate Proper(j: Jacobian, dp: Domain)
    requires ValidDomain(dp)
  {
    JacobianReduced(j, dp) && (j.z != 0 ==> SolvesEquation(ToAffine(j, dp), dp))
  }

  lemma ProperDouble(j: Jacobian, dp: Domain)
    requires ValidDomain(dp) && Proper(j, dp)
    ensures Proper(JacobianDouble(j, dp), dp)
    ensures ToAffine(JacobianDouble(j, dp), dp) == Double(ToAffine(j, dp), dp)
  {
    DoubleCommutes(j, dp);
    if j.z != 0 && j.y != 0 {
      OrdinateZero(j, ToAffine(j, dp), dp);
      DoubleSolves(ToAffine(j, dp), dp);
    }
  }

  lemma ProperAdd(j: Jacobian, q: Point, dp: Domain)
    requires ValidDomain(dp) && Proper(j, dp) && OnCurve(q, dp)
    ensures Proper(JacobianAddAffine(j, q, dp), dp)
    ensures ToAffine(JacobianAddAffine(j, q, dp), dp) == Add(ToAffine(j, dp), q, dp)
  {
    OriginOffCurve(dp);
    var p := ToAffine(j, dp);
    AddAffineCommutes(j, q, dp);
    if q != Zero && j.z != 0 {
      if p.x != q.x {
        ChordSolves(p, q, dp);
      } else {
        SumOnSameAbscissa(j, q, dp);
      }
    }
  }

  lemma SumOnSameAbscissa(j: Jacobian, q: Point, dp: Domain)
    requires ValidDomain(dp) && Proper(j, dp) && OnCurve(q, dp) && q != Zero && j.z != 0
    requires ToAffine(j, dp).x == q.x
    ensures Proper(JacobianAddAffine(j, q, dp), dp)
  {
    var p, m := ToAffine(j, dp), dp.m;
    PowersNonzero(j.z, m);
    SameScaled(p.x, q.x, j.z * j.z, j.x, ScaledX(q.x, j.z, m), m);
    ProperDouble(j, dp);
  }
}
