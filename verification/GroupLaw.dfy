/** What the addition of `Curve` means: the neutral element, inverses, the
    geometry of chords and tangents, and cancellation. */
module GroupLaw {
  import opened ModArith
  import opened Primes
  import opened Mpi
  import opened Curve
  import opened Ecc

  // ------------------------------------------- neutral element, inverses

  /** The point mirrored at the axis. */
  function Neg(p: Point, dp: Domain): Point
  {
    Point(p.x, if p.y == 0 then 0 else dp.m - p.y)
  }

  lemma NegCong(p: Point, dp: Domain)
    requires ValidDomain(dp) && Reduced(p, dp)
    ensures Reduced(Neg(p, dp), dp) && Cong(Neg(p, dp).y, -p.y, dp.m) && Neg(Neg(p, dp), dp) == p
    ensures Neg(p, dp) == Zero <==> p == Zero
  {
    CongFromWitness(Neg(p, dp).y, -p.y, dp.m, if p.y == 0 then 0 else 1);
  }

  lemma NegOnCurve(p: Point, dp: Domain)
    requires ValidDomain(dp) && OnCurve(p, dp)
    ensures OnCurve(Neg(p, dp), dp) && (Finite(p, dp) ==> Finite(Neg(p, dp), dp))
  {
    hide Cong, Rhs, IsPrime;
    NegCong(p, dp);
    var y := Neg(p, dp).y;
    NegSquare(y, p.y);
    Combine1(dp.m, y * y, p.y * p.y, y - p.y, y, -p.y);
    if SolvesEquation(p, dp) { CongTrans(y * y, p.y * p.y, Rhs(p.x, dp), dp.m); }
  }

  lemma NegSquare(y: int, z: int)
    ensures y * y - z * z == (y - z) * (y - -z)
  {
  }

  lemma AddNeutral(p: Point, dp: Domain)
    requires ValidDomain(dp) && Reduced(p, dp)
    ensures Add(p, Zero, dp) == p && Add(Zero, p, dp) == p
  {
  }

  lemma FiniteNonzero(p: Point, dp: Domain)
    requires ValidDomain(dp) && OnCurve(p, dp)
    ensures Finite(p, dp) <==> p != Zero
  {
    OriginOffCurve(dp);
  }

  /** Two finite points over one abscissa are equal or mirrored. */
  lemma SameAbscissa(p: Point, q: Point, dp: Domain)
    requires ValidDomain(dp) && Finite(p, dp) && Finite(q, dp) && p.x == q.x
    ensures q == p || q == Neg(p, dp)
  {
    hide Cong, Rhs, IsPrime;
    SameSquare(q.y, p.y, Rhs(p.x, dp), dp.m);
    NegCong(p, dp);
    var n := Neg(p, dp);
    if Cong(q.y - p.y, 0, dp.m) {
      Combine1(dp.m, q.y, p.y, 1, q.y - p.y, 0);
      SameFieldElement(q.y, p.y, dp.m);
    } else {
      Combine2(dp.m, q.y, n.y, 1, q.y + p.y, 0, -1, n.y, -p.y);
      SameFieldElement(q.y, n.y, dp.m);
    }
  }

  /** A sum is neutral for mirrored points and no others. */
  lemma AddInverse(p: Point, q: Point, dp: Domain)
    requires ValidDomain(dp) && OnCurve(p, dp) && OnCurve(q, dp)
    ensures Add(p, q, dp) == Zero <==> q == Neg(p, dp)
  {
    hide Cong, Rhs, IsPrime;
    NegCong(p, dp);
    FiniteNonzero(p, dp);
    FiniteNonzero(q, dp);
    OriginOffCurve(dp);
    if p != Zero && q != Zero {
      if p.x != q.x {
        ChordSolves(p, q, dp);
      } else {
        SameAbscissa(p, q, dp);
        OwnInverse(p, dp);
        if p == q && p.y != 0 { DoubleSolves(p, dp); }
      }
    }
  }

  lemma OwnInverse(p: Point, dp: Domain)
    requires ValidDomain(dp) && Reduced(p, dp)
    ensures Neg(p, dp) == p <==> p.y == 0
  {
    hide IsPrime;
    OddPrime(dp.m);
  }

  // ------------------------------------------------- chords and tangents

  /** t lies on the line through p and q. */
  predicate OnChord(p: Point, q: Point, t: Point, m: int)
    requires m > 0
  {
    Cong((p.y - q.y) * (t.x - q.x), (t.y - q.y) * (p.x - q.x), m)
  }

  /** t lies on the tangent at p. */
  predicate OnTangent(p: Point, t: Point, dp: Domain)
    requires dp.m > 0
  {
    Cong((3 * p.x * p.x + dp.a) * (t.x - p.x), (t.y - p.y) * (2 * p.y), dp.m)
  }

  /** t lies on the line of slope l through q. */
  predicate OnLine(l: int, q: Point, t: Point, m: int)
    requires m > 0
  {
    Cong(t.y, l * (t.x - q.x) + q.y, m)
  }

  lemma LineOfSlope(l: int, num: int, den: int, q: Point, t: Point, m: int)
    requires IsPrime(m) && m > 0 && !Cong(den, 0, m) && Cong(l * den, num, m)
    ensures Cong(num * (t.x - q.x), (t.y - q.y) * den, m) <==> OnLine(l, q, t, m)
  {
    hide Cong, IsPrime;
    var dx, dy := t.x - q.x, t.y - q.y;
    if Cong(num * dx, dy * den, m) {
      SlopeForth(l, num, den, dx, dy);
      Combine2(m, den * dy, den * (l * dx), -1, num * dx, dy * den, -dx, l * den, num);
      CancelFactor(den, dy, l * dx, m);
      Combine1(m, t.y, l * dx + q.y, 1, dy, l * dx);
    }
    if OnLine(l, q, t, m) {
      SlopeBack(l, num, den, dx, dy);
      Combine2(m, num * dx, dy * den, -dx, l * den, num, -den, t.y, l * dx + q.y);
    }
  }

  lemma SlopeForth(l: int, num: int, den: int, dx: int, dy: int)
    ensures den * dy - den * (l * dx) == -1 * (num * dx - dy * den) + -dx * (l * den - num)
  {
    assert dx * (l * den) == den * (l * dx);
  }

  lemma SlopeBack(l: int, num: int, den: int, dx: int, dy: int)
    ensures num * dx - dy * den == -dx * (l * den - num) + -den * (dy - l * dx)
  {
    assert dx * (l * den) == den * (l * dx);
  }

  /** Along a line that meets the curve over x1 and x2, the curve's equation is a
      product of three factors, the third from the sum's abscissa x3. */
  lemma LineMeetsCubic(x1: int, x2: int, y2: int, l: int, x3: int, x: int, y: int, a: int, b: int, m: int)
    requires m > 0 && Cong(y2 * y2, x2 * x2 * x2 + a * x2 + b, m)
    requires Cong(2 * l * y2 + l * l * (x1 - x2), x1 * x1 + x1 * x2 + x2 * x2 + a, m)
    requires Cong(x3, l * l - x2 - x1, m) && Cong(y, l * (x - x2) + y2, m)
    ensures Cong(y * y - (x * x * x + a * x + b), (x - x2) * ((x - x1) * (x3 - x)), m)
  {
    hide Cong;
    var d, e := x - x2, x1 - x2;
    MeetIdentity(x1, x2, y2, l, x3, x, y, a, b);
    Combine4(m, y * y - (x * x * x + a * x + b), d * ((x - x1) * (x3 - x)),
             y + (l * d + y2), y, l * d + y2,
             1, y2 * y2, x2 * x2 * x2 + a * x2 + b,
             d, 2 * l * y2 + l * l * e, x1 * x1 + x1 * x2 + x2 * x2 + a,
             -(d * (d - e)), x3, l * l - x2 - x1);
  }

  lemma MeetIdentity(x1: int, x2: int, y2: int, l: int, x3: int, x: int, y: int, a: int, b: int)
    ensures
      var d, e := x - x2, x1 - x2;
      y * y - (x * x * x + a * x + b) - d * ((x - x1) * (x3 - x)) ==
      (y + (l * d + y2)) * (y - (l * d + y2)) + 1 * (y2 * y2 - (x2 * x2 * x2 + a * x2 + b))
      + d * (2 * l * y2 + l * l * e - (x1 * x1 + x1 * x2 + x2 * x2 + a))
      + -(d * (d - e)) * (x3 - (l * l - x2 - x1))
  {
    var d, e, s := x - x2, x1 - x2, l * l;
    LinePart(y, l, d, y2);
    CubicShift(x2, d, a, b);
    assert x1 * x1 + x1 * x2 + x2 * x2 == 3 * x2 * x2 + 3 * x2 * e + e * e;
    MeetRest(s, 2 * l * y2, x2, 3 * x2 * x2 + a, d, e, x3);
  }

  lemma LinePart(y: int, l: int, d: int, y2: int)
    ensures (y + (l * d + y2)) * (y - (l * d + y2)) == y * y - y2 * y2 - (d * (2 * l * y2) + d * d * (l * l))
  {
    var w := l * d + y2;
    assert (y + w) * (y - w) == y * y - w * w;
    assert w * w == (l * d) * (l * d) + 2 * (l * d) * y2 + y2 * y2;
    assert (l * d) * (l * d) == d * d * (l * l);
  }

  lemma MeetRest(s: int, t: int, x: int, c: int, d: int, e: int, x3: int)
    ensures d * t + d * d * s - d * c - 3 * x * (d * d) - d * (d * d) - d * ((d - e) * (x3 - (x + d))) ==
            d * (t + s * e - (c + 3 * x * e + e * e)) + -(d * (d - e)) * (x3 - (s - x - (x + e)))
  {
    var f := d - e;
    assert d * (f * (x3 - (x + d))) == (d * f) * (x3 - (x + d));
    assert d * (s * e - 3 * x * e - e * e) == (d * e) * (s - 3 * x - e);
    assert d * f == d * d - d * e;
  }

  /** A curve point on such a line is over one of the three abscissas. */
  lemma ThreeAbscissas(x1: int, x2: int, y2: int, l: int, x3: int, t: Point, dp: Domain)
    requires ValidDomain(dp) && Finite(t, dp) && SolvesEquation(Point(x2, y2), dp)
    requires 0 <= x1 < dp.m && 0 <= x2 < dp.m && 0 <= x3 < dp.m
    requires Cong(2 * l * y2 + l * l * (x1 - x2), x1 * x1 + x1 * x2 + x2 * x2 + dp.a, dp.m)
    requires Cong(x3, l * l - x2 - x1, dp.m) && OnLine(l, Point(x2, y2), t, dp.m)
    ensures t.x == x1 || t.x == x2 || t.x == x3
  {
    LineMeetsCubic(x1, x2, y2, l, x3, t.x, t.y, dp.a, dp.b, dp.m);
    hide Cong, IsPrime;
    var f := t.y * t.y - Rhs(t.x, dp);
    var g := (t.x - x2) * ((t.x - x1) * (x3 - t.x));
    Combine2(dp.m, g, 0, -1, f, g, 1, t.y * t.y, Rhs(t.x, dp));
    PrimeDividesProduct(t.x - x2, (t.x - x1) * (x3 - t.x), dp.m);
    if Cong(t.x - x2, 0, dp.m) {
      EqualAbscissas(t.x, x2, dp.m);
    } else {
      PrimeDividesProduct(t.x - x1, x3 - t.x, dp.m);
      if Cong(t.x - x1, 0, dp.m) {
        EqualAbscissas(t.x, x1, dp.m);
      } else {
        EqualAbscissas(x3, t.x, dp.m);
      }
    }
  }

  lemma EqualAbscissas(a: int, b: int, m: int)
    requires 0 <= a < m && 0 <= b < m && Cong(a - b, 0, m)
    ensures a == b
  {
    hide Cong;
    Combine1(m, a, b, 1, a - b, 0);
    SameFieldElement(a, b, m);
  }

  lemma SameOnLine(l: int, q: Point, s: Point, t: Point, m: int)
    requires m > 0 && 0 <= s.y < m && 0 <= t.y < m && s.x == t.x && OnLine(l, q, s, m) && OnLine(l, q, t, m)
    ensures s == t
  {
    hide Cong;
    Combine2(m, s.y, t.y, 1, s.y, l * (s.x - q.x) + q.y, -1, t.y, l * (s.x - q.x) + q.y);
    SameFieldElement(s.y, t.y, m);
  }

  /** The mirrored sum lies on the line the sum is drawn from. */
  lemma MirrorOnLine(l: int, q: Point, r: Point, dp: Domain)
    requires ValidDomain(dp) && Reduced(r, dp) && Cong(r.y, l * (q.x - r.x) - q.y, dp.m)
    ensures OnLine(l, q, Neg(r, dp), dp.m)
  {
    NegCong(r, dp);
    hide Cong;
    var n := Neg(r, dp);
    MirrorIdentity(l, q.x, q.y, r.x, r.y, n.y);
    Combine2(dp.m, n.y, l * (n.x - q.x) + q.y, 1, n.y, -r.y, -1, r.y, l * (q.x - r.x) - q.y);
  }

  lemma MirrorIdentity(l: int, x: int, y: int, rx: int, ry: int, ny: int)
    ensures ny - (l * (rx - x) + y) == 1 * (ny - -ry) + -1 * (ry - (l * (x - rx) - y))
  {
    assert l * (x - rx) == -(l * (rx - x));
  }

  lemma OwnLine(l: int, q: Point, m: int)
    requires m > 0
    ensures OnLine(l, q, q, m)
  {
    CongSelf(q.y, m);
  }

  /** What the code's slope and sum are, for two points over different abscissas. */
  lemma ChordFacts(p: Point, q: Point, dp: Domain) returns (l: int)
    requires ValidDomain(dp) && Finite(p, dp) && Finite(q, dp) && p.x != q.x
    ensures var r := Add(p, q, dp);
            && Finite(r, dp) && !Cong(p.x - q.x, 0, dp.m) && Cong(l * (p.x - q.x), p.y - q.y, dp.m)
            && Cong(r.x, l * l - q.x - p.x, dp.m) && Cong(r.y, l * (q.x - r.x) - q.y, dp.m)
            && Cong(2 * l * q.y + l * l * (p.x - q.x), p.x * p.x + p.x * q.x + q.x * q.x + dp.a, dp.m)
  {
    OriginOffCurve(dp);
    ChordSolves(p, q, dp);
    CloseNotCong(p.x, q.x, dp.m);
    DifferenceNonzero(p.x, q.x, dp.m);
    hide Cong, IsPrime;
    l := Slope(p.y - q.y, p.x - q.x, dp.m);
    ChordEquation(p.x, p.y, q.x, q.y, l, dp);
  }

  lemma TangentFacts(p: Point, dp: Domain) returns (l: int)
    requires ValidDomain(dp) && Finite(p, dp) && p.y != 0
    ensures var r := Double(p, dp);
            && Finite(r, dp) && !Cong(2 * p.y, 0, dp.m) && Cong(l * (2 * p.y), 3 * p.x * p.x + dp.a, dp.m)
            && Cong(r.x, l * l - p.x - p.x, dp.m) && Cong(r.y, l * (p.x - r.x) - p.y, dp.m)
            && Cong(2 * l * p.y + l * l * (p.x - p.x), p.x * p.x + p.x * p.x + p.x * p.x + dp.a, dp.m)
  {
    DoubleSolves(p, dp);
    TwiceNonzero(p.y, dp.m);
    hide Cong, IsPrime;
    l := Slope(3 * p.x * p.x + dp.a, 2 * p.y, dp.m);
    TangentShape(l, p.x, p.y);
  }

  lemma TangentShape(l: int, x: int, y: int)
    ensures 2 * l * y + l * l * (x - x) == l * (2 * y) && x * x + x * x + x * x == 3 * x * x
  {
  }

  /** The line through p and q meets the curve in p, in q and in the mirrored
      sum, and nowhere else. */
  lemma ChordLaw(p: Point, q: Point, t: Point, dp: Domain)
    requires ValidDomain(dp) && Finite(p, dp) && Finite(q, dp) && p.x != q.x && Finite(t, dp)
    ensures OnChord(p, q, t, dp.m) <==> t == p || t == q || t == Neg(Add(p, q, dp), dp)
  {
    hide Cong, IsPrime, Rhs, Add;
    var l := ChordFacts(p, q, dp);
    var r := Add(p, q, dp);
    LineOfSlope(l, p.y - q.y, p.x - q.x, q, t, dp.m);
    OwnLine(l, q, dp.m);
    MirrorOnLine(l, q, r, dp);
    NegCong(r, dp);
    Combine1(dp.m, p.y, l * (p.x - q.x) + q.y, -1, l * (p.x - q.x), p.y - q.y);
    if OnLine(l, q, t, dp.m) {
      ThreeAbscissas(p.x, q.x, q.y, l, r.x, t, dp);
      if t.x == p.x {
        SameOnLine(l, q, p, t, dp.m);
      } else if t.x == q.x {
        SameOnLine(l, q, q, t, dp.m);
      } else {
        SameOnLine(l, q, Neg(r, dp), t, dp.m);
      }
    }
  }

  /** The tangent at p meets the curve in p and in the mirrored double only. */
  lemma TangentLaw(p: Point, t: Point, dp: Domain)
    requires ValidDomain(dp) && Finite(p, dp) && p.y != 0 && Finite(t, dp)
    ensures OnTangent(p, t, dp) <==> t == p || t == Neg(Add(p, p, dp), dp)
  {
    OriginOffCurve(dp);
    assert Add(p, p, dp) == Double(p, dp);
    hide Cong, IsPrime, Rhs, Double, Add;
    var l := TangentFacts(p, dp);
    var r := Double(p, dp);
    LineOfSlope(l, 3 * p.x * p.x + dp.a, 2 * p.y, p, t, dp.m);
    OwnLine(l, p, dp.m);
    MirrorOnLine(l, p, r, dp);
    NegCong(r, dp);
    if OnLine(l, p, t, dp.m) {
      ThreeAbscissas(p.x, p.x, p.y, l, r.x, t, dp);
      if t.x == p.x {
        SameOnLine(l, p, p, t, dp.m);
      } else {
        SameOnLine(l, p, Neg(r, dp), t, dp.m);
      }
    }
  }

  // -------------------------------------------------------- cancellation

  /** Both derivatives of the equation vanish: the curve has no tangent here. */
  predicate Singular(q: Point, dp: Domain)
    requires dp.m > 0
  {
    q.y == 0 && Cong(3 * q.x * q.x + dp.a, 0, dp.m)
  }

  /** Back along the mirrored line: the slope changes its sign and the third
      point is the one the sum started from. */
  lemma BackAlong(l: int, k: int, p: Point, q: Point, r: Point, s: Point, ny: int, m: int)
    requires m > 0 && Cong(k, -l, m) && Cong(ny, -q.y, m)
    requires Cong(l * (p.x - q.x), p.y - q.y, m)
    requires Cong(r.x, l * l - q.x - p.x, m)
    requires Cong(s.x, k * k - q.x - r.x, m) && Cong(s.y, k * (q.x - s.x) - ny, m)
    requires 0 <= p.x < m && 0 <= p.y < m && 0 <= s.x < m && 0 <= s.y < m
    ensures s == p
  {
    hide Cong;
    BackAbscissa(l, k, p.x, q.x, r.x, s.x);
    Combine3(m, s.x, p.x, 1, s.x, k * k - q.x - r.x, k - l, k, -l, -1, r.x, l * l - q.x - p.x);
    SameFieldElement(s.x, p.x, m);
    BackOrdinate(l, k, p.x - q.x, p.y, q.y, s.y, ny);
    Combine4(m, s.y, p.y, 1, s.y, k * (q.x - s.x) - ny, -(p.x - q.x), k, -l, 1, l * (p.x - q.x), p.y - q.y,
             -1, ny, -q.y);
    SameFieldElement(s.y, p.y, m);
  }

  lemma BackAbscissa(l: int, k: int, px: int, qx: int, rx: int, sx: int)
    ensures sx - px == 1 * (sx - (k * k - qx - rx)) + (k - l) * (k - -l) + -1 * (rx - (l * l - qx - px))
  {
    assert (k - l) * (k - -l) == k * k - l * l;
  }

  lemma BackOrdinate(l: int, k: int, e: int, py: int, qy: int, sy: int, ny: int)
    ensures sy - py ==
            1 * (sy - (k * -e - ny)) + -e * (k - -l) + 1 * (l * e - (py - qy)) + -1 * (ny - -qy)
  {
    assert -e * (k - -l) == k * -e - l * e;
  }

  /** p + q - q for a sum over another abscissa than q. */
  lemma CancelApart(l: int, p: Point, q: Point, r: Point, dp: Domain)
    requires ValidDomain(dp) && Finite(p, dp) && Finite(q, dp) && Finite(r, dp) && r.x != q.x
    requires Cong(l * (p.x - q.x), p.y - q.y, dp.m)
    requires Cong(r.x, l * l - q.x - p.x, dp.m) && Cong(r.y, l * (q.x - r.x) - q.y, dp.m)
    ensures Add(r, Neg(q, dp), dp) == p
  {
    hide Cong, IsPrime, Rhs;
    var n := Neg(q, dp);
    NegCong(q, dp);
    NegOnCurve(q, dp);
    var s := Add(r, n, dp);
    var k := ChordFacts(r, n, dp);
    MirrorSlope(l, k, q.x, q.y, r.x, r.y, n.y);
    var e := r.x - q.x;
    Combine3(dp.m, e * k, e * -l, 1, k * e, r.y - n.y, 1, r.y, l * (q.x - r.x) - q.y, -1, n.y, -q.y);
    CancelFactor(e, k, -l, dp.m);
    BackAlong(l, k, p, q, r, s, n.y, dp.m);
  }

  lemma MirrorSlope(l: int, k: int, qx: int, qy: int, rx: int, ry: int, ny: int)
    ensures var e := rx - qx;
            e * k - e * -l == 1 * (k * e - (ry - ny)) + 1 * (ry - (l * (qx - rx) - qy)) + -1 * (ny - -qy)
  {
    assert l * (qx - rx) == -(l * (rx - qx));
  }

  /** p + q - q for a sum over the abscissa of q: then it is the mirrored q, the
      line is the tangent at q, and -q is doubled. */
  lemma CancelTangent(l: int, p: Point, q: Point, r: Point, dp: Domain)
    requires ValidDomain(dp) && Finite(p, dp) && Finite(q, dp) && Finite(r, dp) && r.x == q.x && q.y != 0
    requires Cong(l * (p.x - q.x), p.y - q.y, dp.m) && Cong(l * (2 * q.y), 3 * q.x * q.x + dp.a, dp.m)
    requires Cong(r.x, l * l - q.x - p.x, dp.m) && Cong(r.y, l * (q.x - r.x) - q.y, dp.m)
    ensures Add(r, Neg(q, dp), dp) == p
  {
    hide Cong, IsPrime, Rhs;
    SumIsMirror(l, q, r, dp);
    var n := Neg(q, dp);
    NegCong(q, dp);
    NegOnCurve(q, dp);
    OriginOffCurve(dp);
    assert Add(n, n, dp) == Double(n, dp);
    var k := TangentFacts(n, dp);
    TwiceNonzero(q.y, dp.m);
    TangentMirrors(l, k, q.y, n.y, 3 * q.x * q.x + dp.a, dp.m);
    BackAlong(l, k, p, q, r, Double(n, dp), n.y, dp.m);
  }

  lemma TangentMirrors(l: int, k: int, y: int, ny: int, c: int, m: int)
    requires IsPrime(m) && m > 0 && !Cong(2 * y, 0, m) && Cong(ny, -y, m)
    requires Cong(l * (2 * y), c, m) && Cong(k * (2 * ny), c, m)
    ensures Cong(k, -l, m)
  {
    hide Cong, IsPrime;
    TangentMirror(l, k, y, ny, c);
    Combine3(m, (2 * y) * k, (2 * y) * -l, -1, k * (2 * ny), c, 1, l * (2 * y), c, 2 * k, ny, -y);
    CancelFactor(2 * y, k, -l, m);
  }

  lemma TangentMirror(l: int, k: int, y: int, ny: int, c: int)
    ensures (2 * y) * k - (2 * y) * -l == -1 * (k * (2 * ny) - c) + 1 * (l * (2 * y) - c) + (2 * k) * (ny - -y)
  {
    assert (2 * k) * (ny - -y) == k * (2 * ny) + (2 * y) * k;
    assert (2 * y) * -l == -(l * (2 * y));
  }

  lemma SumIsMirror(l: int, q: Point, r: Point, dp: Domain)
    requires ValidDomain(dp) && Reduced(q, dp) && Reduced(r, dp) && r.x == q.x
    requires Cong(r.y, l * (q.x - r.x) - q.y, dp.m)
    ensures r == Neg(q, dp)
  {
    hide Cong, IsPrime;
    NegCong(q, dp);
    var n := Neg(q, dp);
    assert l * (q.x - r.x) == 0;
    Combine2(dp.m, r.y, n.y, 1, r.y, -q.y, -1, n.y, -q.y);
    SameFieldElement(r.y, n.y, dp.m);
  }

  /** A chord whose sum falls over q touches the curve at q. */
  lemma ChordTouches(l: int, p: Point, q: Point, rx: int, dp: Domain)
    requires ValidDomain(dp) && rx == q.x
    requires Cong(2 * l * q.y + l * l * (p.x - q.x), p.x * p.x + p.x * q.x + q.x * q.x + dp.a, dp.m)
    requires Cong(rx, l * l - q.x - p.x, dp.m)
    ensures Cong(l * (2 * q.y), 3 * q.x * q.x + dp.a, dp.m)
  {
    hide Cong, IsPrime;
    TouchIdentity(l, p.x, q.x, q.y, dp.a);
    Combine2(dp.m, l * (2 * q.y), 3 * q.x * q.x + dp.a,
             1, 2 * l * q.y + l * l * (p.x - q.x), p.x * p.x + p.x * q.x + q.x * q.x + dp.a,
             p.x - q.x, rx, l * l - q.x - p.x);
  }

  lemma TouchIdentity(l: int, px: int, qx: int, qy: int, a: int)
    ensures l * (2 * qy) - (3 * qx * qx + a) ==
            1 * (2 * l * qy + l * l * (px - qx) - (px * px + px * qx + qx * qx + a))
            + (px - qx) * (qx - (l * l - qx - px))
  {
    assert (px - qx) * (l * l) == l * l * (px - qx);
    assert (px - qx) * (qx - (l * l - qx - px)) == (px - qx) * (2 * qx + px) - (px - qx) * (l * l);
    assert (px - qx) * (2 * qx + px) == px * px + px * qx - 2 * qx * qx;
  }

  /** Conversely a chord through a point without a tangent comes back to it. */
  lemma SingularChord(l: int, p: Point, q: Point, rx: int, dp: Domain)
    requires ValidDomain(dp) && Singular(q, dp) && !Cong(p.x - q.x, 0, dp.m)
    requires 0 <= q.x < dp.m && 0 <= rx < dp.m
    requires Cong(2 * l * q.y + l * l * (p.x - q.x), p.x * p.x + p.x * q.x + q.x * q.x + dp.a, dp.m)
    requires Cong(rx, l * l - q.x - p.x, dp.m)
    ensures rx == q.x
  {
    hide Cong, IsPrime;
    var e := p.x - q.x;
    SingularIdentity(l, p.x, q.x, dp.a, rx);
    Combine3(dp.m, e * rx, e * q.x, e, rx, l * l - q.x - p.x,
             1, 2 * l * q.y + l * l * e, p.x * p.x + p.x * q.x + q.x * q.x + dp.a, 1, 3 * q.x * q.x + dp.a, 0);
    CancelFactor(e, rx, q.x, dp.m);
    SameFieldElement(rx, q.x, dp.m);
  }

  lemma SingularIdentity(l: int, px: int, qx: int, a: int, rx: int)
    ensures var e := px - qx;
            e * rx - e * qx == e * (rx - (l * l - qx - px)) + 1 * (l * l * e - (px * px + px * qx + qx * qx + a))
                               + 1 * (3 * qx * qx + a - 0)
  {
    var e := px - qx;
    assert e * (l * l) == l * l * e;
    assert e * (2 * qx + px) == px * px + px * qx - 2 * qx * qx;
    assert e * (rx - (l * l - qx - px)) == e * rx - e * (l * l) + e * qx + e * px;
    assert e * (2 * qx + px) == 2 * (e * qx) + e * px;
  }

  /** Subtracting what was added gives back the first summand, if and only if the
      second has a tangent or the sum is a trivial one. */
  lemma AddCancels(p: Point, q: Point, dp: Domain)
    requires ValidDomain(dp) && OnCurve(p, dp) && OnCurve(q, dp)
    ensures OnCurve(Add(p, q, dp), dp) && OnCurve(Neg(q, dp), dp)
    ensures Add(Add(p, q, dp), Neg(q, dp), dp) == p <==> p == Zero || q == Zero || p == q || !Singular(q, dp)
  {
    AddOnCurve(p, q, dp);
    NegOnCurve(q, dp);
    FiniteNonzero(p, dp);
    FiniteNonzero(q, dp);
    AddInverse(q, Neg(q, dp), dp);
    hide Cong, IsPrime, Rhs, Singular;
    NegCong(q, dp);
    if p == Zero || q == Zero {
      AddNeutral(q, dp);
      AddNeutral(p, dp);
    } else if p.x != q.x {
      CancelChord(p, q, dp);
    } else {
      SameAbscissa(q, p, dp);
      AddInverse(p, q, dp);
      if p == q && p.y != 0 {
        CancelDouble(p, dp);
        HasTangent(p, dp);
      } else {
        OwnInverse(q, dp);
        AddNeutral(Neg(q, dp), dp);
        if p != q { HasTangent(q, dp); }
      }
    }
  }

  lemma HasTangent(q: Point, dp: Domain)
    requires dp.m > 0
    ensures q.y != 0 ==> !Singular(q, dp)
  {
  }

  lemma CancelChord(p: Point, q: Point, dp: Domain)
    requires ValidDomain(dp) && Finite(p, dp) && Finite(q, dp) && p.x != q.x
    requires OnCurve(Add(p, q, dp), dp) && OnCurve(Neg(q, dp), dp)
    ensures Add(Add(p, q, dp), Neg(q, dp), dp) == p <==> !Singular(q, dp)
  {
    OriginOffCurve(dp);
    hide Cong, IsPrime, Rhs, Add, Singular;
    var l := ChordFacts(p, q, dp);
    var r := Add(p, q, dp);
    if r.x != q.x {
      CancelApart(l, p, q, r, dp);
      if Singular(q, dp) { SingularChord(l, p, q, r.x, dp); }
    } else {
      ChordTouches(l, p, q, r.x, dp);
      if q.y != 0 {
        CancelTangent(l, p, q, r, dp);
        HasTangent(q, dp);
      } else {
        SumIsMirror(l, q, r, dp);
        OwnInverse(q, dp);
        AddInverse(q, q, dp);
        NoTangent(l, q, dp);
      }
    }
  }

  lemma NoTangent(l: int, q: Point, dp: Domain)
    requires dp.m > 0 && q.y == 0 && Cong(l * (2 * q.y), 3 * q.x * q.x + dp.a, dp.m)
    ensures Singular(q, dp)
  {
    assert l * (2 * q.y) == 0;
    CongSym(0, 3 * q.x * q.x + dp.a, dp.m);
  }

  lemma CancelDouble(p: Point, dp: Domain)
    requires ValidDomain(dp) && Finite(p, dp) && p.y != 0 && OnCurve(Add(p, p, dp), dp)
    ensures Add(Add(p, p, dp), Neg(p, dp), dp) == p
  {
    OriginOffCurve(dp);
    assert Add(p, p, dp) == Double(p, dp);
    hide Cong, IsPrime, Rhs, Add, Double;
    var l := TangentFacts(p, dp);
    var r := Double(p, dp);
    assert l * (p.x - p.x) == 0;
    CongSelf(0, dp.m);
    if r.x != p.x {
      CancelApart(l, p, p, r, dp);
    } else {
      CancelTangent(l, p, p, r, dp);
    }
  }

  /** A curve with a point that has no tangent, y^2 = x^3 + 4x + 2 modulo 7 at
      (1, 0): what is added to (0, 3) cannot be subtracted again. */
  lemma NoCancellation(dp: Domain)
    requires dp.a == 4 && dp.b == 2 && dp.m == 7
    ensures var p, q := Point(0, 3), Point(1, 0);
            && ValidDomain(dp) && OnCurve(p, dp) && OnCurve(q, dp) && OnCurve(Add(p, q, dp), dp)
               && OnCurve(Neg(q, dp), dp)
            && Add(Add(p, q, dp), Neg(q, dp), dp) != p
  {
    SevenIsPrime();
    var p, q := Point(0, 3), Point(1, 0);
    assert OnCurve(p, dp) && OnCurve(q, dp) && Singular(q, dp);
    hide IsPrime, Add, Cong, Singular;
    AddCancels(p, q, dp);
  }

  lemma SevenIsPrime()
    ensures IsPrime(7)
  {
    forall d | 1 < d < 7 ensures !Divides(d, 7) {
      assert d == 2 || d == 3 || d == 4 || d == 5 || d == 6;
    }
  }
}
