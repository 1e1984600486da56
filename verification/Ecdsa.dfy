/** ECDSA of seccure/protocol.c. The only hypothesis on the curve beyond the
    domain parameters is associativity of the addition law; everything else a
    signature needs of scalar multiplication is derived from it here. */
module Ecdsa {
  import opened Bytes
  import opened ModArith
  import opened Primes
  import opened Mpi
  import Serialize
  import opened Curve
  import opened Ecc

  /** The addition law of a nonsingular curve is associative. */
  ghost predicate Associative(dp: Domain)
    requires ValidDomain(dp)
  {
    forall p, q, r: Point {:trigger Add(Add(p, q, dp), r, dp)} :: OnCurve(p, dp) && OnCurve(q, dp) && OnCurve(r, dp) ==>
      Add(Add(p, q, dp), r, dp) == Add(p, Add(q, r, dp), dp)
  }

  /** n-fold sum of p. */
  function Multiple(p: Point, n: nat, dp: Domain): (r: Point)
    requires ValidDomain(dp) && OnCurve(p, dp)
    ensures OnCurve(r, dp)
  {
    if n == 0 then Zero else
      AddOnCurve(Multiple(p, n - 1, dp), p, dp);
      Add(Multiple(p, n - 1, dp), p, dp)
  }

  /** What `load_curve` checks of a new curve, with the group law. */
  ghost predicate ValidGroup(dp: Domain)
  {
    && ValidDomain(dp) && Associative(dp)
    && OnCurve(dp.base, dp) && IsPrime(dp.order) && dp.order >= 2
    && Multiple(dp.base, dp.order, dp) == Zero
  }

  lemma {:induction false} MultipleAdd(p: Point, a: nat, b: nat, dp: Domain)
    requires ValidDomain(dp) && Associative(dp) && OnCurve(p, dp)
    ensures Multiple(p, a + b, dp) == Add(Multiple(p, a, dp), Multiple(p, b, dp), dp)
    decreases b
  {
    if b > 0 {
      MultipleAdd(p, a, b - 1, dp);
      AddOnCurve(Multiple(p, b - 1, dp), p, dp);
      assert Add(Add(Multiple(p, a, dp), Multiple(p, b - 1, dp), dp), p, dp) ==
             Add(Multiple(p, a, dp), Add(Multiple(p, b - 1, dp), p, dp), dp);
    }
  }

  lemma {:induction false} MultipleMul(p: Point, a: nat, b: nat, c: nat, dp: Domain)
    requires ValidDomain(dp) && Associative(dp) && OnCurve(p, dp) && c == a * b
    ensures Multiple(Multiple(p, a, dp), b, dp) == Multiple(p, c, dp)
    decreases b
  {
    hide Associative, Add, Double, IsPrime;
    if b == 0 {
      assert c == 0;
    } else {
      assert c == a * (b - 1) + a;
      MultipleMul(p, a, b - 1, c - a, dp);
      MultipleAdd(p, c - a, a, dp);
    }
  }

  lemma {:induction false} MultipleOfZero(n: nat, dp: Domain)
    requires ValidDomain(dp) && OnCurve(Zero, dp)
    ensures Multiple(Zero, n, dp) == Zero
  {
    if n > 0 { MultipleOfZero(n - 1, dp); }
  }

  lemma DoubledMultiple(p: Point, n: nat, dp: Domain)
    requires ValidDomain(dp) && Associative(dp) && OnCurve(p, dp)
    ensures Double(Multiple(p, n, dp), dp) == Multiple(p, 2 * n, dp)
    ensures Add(Multiple(p, 2 * n, dp), p, dp) == Multiple(p, 2 * n + 1, dp)
  {
    MultipleAdd(p, n, n, dp);
    hide Associative;
    var h := Multiple(p, n, dp);
    assert Add(h, h, dp) == Double(h, dp);
  }

  /** `pointmul` is scalar multiplication. */
  lemma {:induction false} DoubleAndAddIsMultiple(p: Point, e: nat, dp: Domain)
    requires ValidDomain(dp) && Associative(dp) && OnCurve(p, dp)
    ensures DoubleAndAdd(p, e, dp) == Multiple(p, e, dp)
    decreases e
  {
    hide Associative, Add, Double, IsPrime, Cong;
    if e > 0 {
      DoubleAndAddIsMultiple(p, e / 2, dp);
      DoubledMultiple(p, e / 2, dp);
      assert e == 2 * (e / 2) + e % 2;
    }
  }

  /** Scalars matter modulo the group order only. */
  lemma ScalarsModOrder(a: nat, b: nat, dp: Domain)
    requires ValidGroup(dp) && Cong(a, b, dp.order)
    ensures Multiple(dp.base, a, dp) == Multiple(dp.base, b, dp)
  {
    hide Associative, Add, Double, IsPrime, Cong, Multiple;
    if a <= b {
      CongSym(a, b, dp.order);
      OrderMultiple(a, b, dp);
    } else {
      OrderMultiple(b, a, dp);
    }
  }

  lemma OrderMultiple(a: nat, b: nat, dp: Domain)
    requires ValidGroup(dp) && a <= b && Cong(b, a, dp.order)
    ensures Multiple(dp.base, a, dp) == Multiple(dp.base, b, dp)
  {
    var k := CongWitness(b, a, dp.order);
    MultipleBound(k, dp.order);
    OrderTimes(k, b - a, dp);
    AddMultipleOfOrder(a, b - a, dp);
  }

  lemma OrderTimes(k: nat, w: nat, dp: Domain)
    requires ValidGroup(dp) && w == k * dp.order
    ensures Multiple(dp.base, w, dp) == Zero
  {
    hide Cong, IsPrime, Associative, Multiple, Double, Add;
    assert w == dp.order * k;
    MultipleMul(dp.base, dp.order, k, w, dp);
    MultipleOfZero(k, dp);
  }

  lemma AddMultipleOfOrder(a: nat, w: nat, dp: Domain)
    requires ValidGroup(dp) && Multiple(dp.base, w, dp) == Zero
    ensures Multiple(dp.base, a + w, dp) == Multiple(dp.base, a, dp)
  {
    hide Associative, Multiple;
    MultipleAdd(dp.base, a, w, dp);
  }

  // ------------------------------------------------------------ nonces

  /** `buf_to_exponent`: always a unit modulo the order. */
  function BufToExponent(buf: seq<Byte>, order: int): (k: int)
    requires order >= 2
    ensures 1 <= k < order
  {
    Serialize.Value(buf, 256) % (order - 1) + 1
  }

  /** The hash to be signed, read as a number by `gcry_mpi_scan`. */
  function Digest(msg: seq<Byte>): nat
  {
    Serialize.Value(msg, 256)
  }

  // -------------------------------------------------------- signatures

  /** The pair (r, s) made with nonce k: r = x(kG) mod n and s = (e + d*r) / k,
      both nonzero. */
  ghost predicate SignedPair(r: int, s: int, e: nat, d: nat, k: nat, dp: Domain)
    requires ValidGroup(dp)
  {
    && 1 <= k < dp.order
    && 0 < r < dp.order && 0 < s < dp.order
    && r == Multiple(dp.base, k, dp).x % dp.order
    && NonceFits(k, s, e, d, r, dp.order)
  }

  /** The signing equation k*s = e + d*r modulo n. */
  predicate NonceFits(k: int, s: int, e: int, d: int, r: int, n: int)
    requires n > 0
  {
    Cong(k * s, e + d * r, n)
  }

  /** The pair packed into one integer. */
  ghost predicate SignedWith(sig: nat, e: nat, d: nat, k: nat, dp: Domain)
    requires ValidGroup(dp)
  {
    SignedPair(sig % dp.order, sig / dp.order, e, d, k, dp)
  }

  /** sig is an ECDSA signature of digest e under secret d, for some nonce. */
  ghost predicate IsSignature(sig: nat, e: nat, d: nat, dp: Domain)
    requires ValidGroup(dp)
  {
    exists k :: SignedWith(sig, e, d, k, dp)
  }

  /** No signature exists for the nonce this buffer yields. */
  ghost predicate Unusable(buf: seq<Byte>, e: nat, d: nat, dp: Domain)
    requires ValidGroup(dp)
  {
    forall sig: nat :: !SignedWith(sig, e, d, BufToExponent(buf, dp.order), dp)
  }

  lemma ZeroAbscissa(buf: seq<Byte>, e: nat, d: nat, dp: Domain)
    requires ValidGroup(dp) && Multiple(dp.base, BufToExponent(buf, dp.order), dp).x % dp.order == 0
    ensures Unusable(buf, e, d, dp)
  {
    hide Multiple, Associative, BufToExponent, Cong, IsPrime;
  }

  lemma ZeroSignature(buf: seq<Byte>, e: nat, d: nat, k: int, r: int, s: int, dp: Domain)
    requires ValidGroup(dp) && k == BufToExponent(buf, dp.order) && !Cong(k, 0, dp.order)
    requires r == Multiple(dp.base, k, dp).x % dp.order && s == 0
    requires s == MulMod(AddMod(MulMod(d, r, dp.order), e % dp.order, dp.order), InvMod(k, dp.order), dp.order)
    ensures Unusable(buf, e, d, dp)
  {
    SignatureEquation(e, d, k, r, s, dp.order);
    hide Multiple, Associative, BufToExponent, Cong, IsPrime, AddMod, MulMod, InvMod;
    forall sig: nat
      ensures !SignedWith(sig, e, d, k, dp)
    {
      var s' := sig / dp.order;
      if SignedWith(sig, e, d, k, dp) {
        Combine2(dp.order, k * s', k * s, 1, k * s', e + d * r, -1, k * s, e + d * r);
        CancelFactor(k, s', s, dp.order);
        SameFieldElement(s', s, dp.order);
        assert false;
      }
    }
  }

  /** Signing draws nonces from a finite stretch of the key stream and retries
      while r or s is zero; None when the stretch is used up. */
  method EcdsaSign(msg: seq<Byte>, d: nat, dp: Domain, nonces: seq<seq<Byte>>) returns (sig: int)
    requires ValidGroup(dp)
    ensures -1 <= sig
    ensures sig >= 0 ==> IsSignature(sig, Digest(msg), d, dp)
    ensures sig >= 0 ==>
      exists i :: 0 <= i < |nonces| && SignedWith(sig, Digest(msg), d, BufToExponent(nonces[i], dp.order), dp)
                                     && forall j :: 0 <= j < i ==> Unusable(nonces[j], Digest(msg), d, dp)
    ensures sig < 0 ==> forall j :: 0 <= j < |nonces| ==> Unusable(nonces[j], Digest(msg), d, dp)
  {
    hide Cong, IsPrime, Associative, Add, Double, Multiple, DoubleAndAdd, AddMod, MulMod, InvMod, BufToExponent,
      SignedWith, Unusable;
    var n := dp.order;
    var i := 0;
    while i < |nonces|
      invariant 0 <= i <= |nonces|
      invariant forall j :: 0 <= j < i ==> Unusable(nonces[j], Digest(msg), d, dp)
    {
      var k := BufToExponent(nonces[i], n);
      var base := new AffinePoint(dp.base.x, dp.base.y);
      var p1 := PointMul(base, k, dp);
      DoubleAndAddIsMultiple(dp.base, k, dp);
      var r := p1.x % n;
      if r != 0 {
        var e := Digest(msg) % n;
        var s := MulMod(d, r, n);
        s := AddMod(s, e, n);
        CloseNotCong(k, 0, n);
        e := InvMod(k, n);
        s := MulMod(s, e, n);
        if s != 0 {
          PackedSignature(Digest(msg), d, k, r, s, dp);
          sig := s * n;
          sig := sig + r;
          return;
        }
        ZeroSignature(nonces[i], Digest(msg), d, k, r, s, dp);
      } else {
        ZeroAbscissa(nonces[i], Digest(msg), d, dp);
      }
      i := i + 1;
    }
    sig := -1;
  }

  lemma PackedSignature(e: nat, d: nat, k: int, r: int, s: int, dp: Domain)
    requires ValidGroup(dp) && 1 <= k < dp.order && !Cong(k, 0, dp.order)
    requires r == Multiple(dp.base, k, dp).x % dp.order && r != 0 && s != 0
    requires s == MulMod(AddMod(MulMod(d, r, dp.order), e % dp.order, dp.order), InvMod(k, dp.order), dp.order)
    ensures s * dp.order + r >= 0 && SignedWith(s * dp.order + r, e, d, k, dp)
  {
    var n := dp.order;
    SignatureEquation(e, d, k, r, s, n);
    hide Cong, IsPrime, Associative, Add, Double, Multiple, AddMod, MulMod, InvMod;
    Unpack(s, r, n);
    MultipleBound(s, n);
  }

  lemma SignatureEquation(e: nat, d: nat, k: nat, r: int, s: int, n: int)
    requires IsPrime(n) && !Cong(k, 0, n)
    requires s == MulMod(AddMod(MulMod(d, r, n), e % n, n), InvMod(k, n), n)
    ensures NonceFits(k, s, e, d, r, n)
  {
    hide Cong, IsPrime, MulMod, AddMod, InvMod;
    CongResidue(e, n);
    var i, t := InvMod(k, n), MulMod(d, r, n);
    AddHom(t, d * r, e % n, e, n);
    var u := AddMod(t, e % n, n);
    SignatureIdentity(k, s, u, i, d * r + e);
    Combine3(n, k * s, d * r + e, k, s, u * i, u, i * k, 1, 1, u, d * r + e);
  }

  lemma SignatureIdentity(k: int, s: int, u: int, i: int, t: int)
    ensures k * s - t == k * (s - u * i) + u * (i * k - 1) + 1 * (u - t)
  {
    assert k * (u * i) == u * (i * k);
  }

  /** s*n + r is taken apart by one division. */
  lemma Unpack(s: int, r: int, n: int)
    requires 0 <= r < n
    ensures (s * n + r) / n == s && (s * n + r) % n == r
  {
    DivUnique(s * n + r, n, s, r);
  }

  /** The point the verifier computes, as a multiple of the base point. */
  lemma VerifierPoint(d: nat, u: nat, v: nat, w: nat, dp: Domain)
    requires ValidGroup(dp) && w == d * v
    ensures Add(Multiple(dp.base, u, dp), Multiple(Multiple(dp.base, d, dp), v, dp), dp) == Multiple(dp.base, u + w, dp)
  {
    hide Associative, Multiple, Add, Double, IsPrime;
    MultipleMul(dp.base, d, v, w, dp);
    MultipleAdd(dp.base, u, w, dp);
  }

  /** u*G + v*Q through the code's `pointmul` and `point_add`, for any key Q. */
  method VerifierSum(q: AffinePoint, u: nat, v: nat, dp: Domain) returns (x1: AffinePoint)
    requires ValidGroup(dp) && OnCurve(q.View(), dp)
    ensures x1.View() == Add(Multiple(dp.base, u, dp), Multiple(q.View(), v, dp), dp)
  {
    hide Associative, Multiple, DoubleAndAdd, Add, Double, IsPrime, SolvesEquation;
    var base := new AffinePoint(dp.base.x, dp.base.y);
    x1 := PointMul(base, u, dp);
    var x2 := PointMul(q, v, dp);
    PointAdd(x1, x2, dp);
    DoubleAndAddIsMultiple(dp.base, u, dp);
    DoubleAndAddIsMultiple(q.View(), v, dp);
  }

  /** The check of the standard (SEC 1, section 4.1.4), for any key Q: with
      u*s = e and v*s = r, the abscissa of u*G + v*Q is r. */
  ghost predicate Accepts(r: int, s: int, e: nat, q: Point, dp: Domain)
    requires ValidDomain(dp) && OnCurve(dp.base, dp) && OnCurve(q, dp) && dp.order > 0
  {
    exists u: nat, v: nat :: Scalars(u, v, r, s, e, dp.order) && Matches(u, v, r, q, dp)
  }

  predicate Scalars(u: nat, v: nat, r: int, s: int, e: nat, n: int)
    requires n > 0
  {
    u < n && v < n && Cong(u * s, e, n) && Cong(v * s, r, n)
  }

  ghost predicate Matches(u: nat, v: nat, r: int, q: Point, dp: Domain)
    requires ValidDomain(dp) && OnCurve(dp.base, dp) && OnCurve(q, dp) && dp.order > 0
  {
    var p := Add(Multiple(dp.base, u, dp), Multiple(q, v, dp), dp);
    p != Zero && p.x % dp.order == r
  }

  /** Verification is the check of the standard on the unpacked pair. For a key
      Q = dG it answers yes if and only if some nonce makes sig the signature of
      msg under d. */
  method EcdsaVerify(msg: seq<Byte>, q: AffinePoint, sig: nat, dp: Domain) returns (res: bool)
    requires ValidGroup(dp) && OnCurve(q.View(), dp)
    ensures res <==>
              var s, r := sig / dp.order, sig % dp.order;
              0 < s < dp.order && 0 < r < dp.order && Accepts(r, s, Digest(msg), q.View(), dp)
    ensures forall d: nat :: q.View() == Multiple(dp.base, d, dp) ==> (res <==> IsSignature(sig, Digest(msg), d, dp))
  {
    hide SignedPair, Associative, Multiple, IsPrime, ValidDomain, OnCurve, Accepts;
    var s, r := sig / dp.order, sig % dp.order;
    if s <= 0 || s >= dp.order || r <= 0 || r >= dp.order {
      forall d: nat ensures !IsSignature(sig, Digest(msg), d, dp) {
        OutOfRange(sig, Digest(msg), d, dp);
      }
      return false;
    }
    res := VerifyPair(msg, q, r, s, dp);
    forall d: nat | q.View() == Multiple(dp.base, d, dp) ensures res <==> IsSignature(sig, Digest(msg), d, dp) {
      AcceptedPair(r, s, Digest(msg), d, q.View(), dp);
      SignaturePair(sig, Digest(msg), d, dp);
    }
  }

  lemma SignaturePair(sig: nat, e: nat, d: nat, dp: Domain)
    requires ValidGroup(dp) && 0 < sig / dp.order < dp.order && 0 < sig % dp.order < dp.order
    ensures IsSignature(sig, e, d, dp) <==> exists k :: SignedPair(sig % dp.order, sig / dp.order, e, d, k, dp)
  {
    hide SignedPair, Associative, Multiple, IsPrime, ValidDomain, OnCurve;
    if k :| SignedPair(sig % dp.order, sig / dp.order, e, d, k, dp) {
      assert SignedWith(sig, e, d, k, dp);
    }
  }

  method VerifyPair(msg: seq<Byte>, q: AffinePoint, r: int, s: int, dp: Domain) returns (res: bool)
    requires ValidGroup(dp) && OnCurve(q.View(), dp)
    requires 0 < s < dp.order && 0 < r < dp.order
    ensures res <==> Accepts(r, s, Digest(msg), q.View(), dp)
  {
    hide Cong, IsPrime, Associative, Multiple, Add, Double, MulMod, InvMod, OnCurve, Scalars;
    var n := dp.order;
    CloseNotCong(s, 0, n);
    var e := Digest(msg) % n;
    var w := InvMod(s, n);
    var u := MulMod(e, w, n);
    var v := MulMod(r, w, n);
    ScalarsComputed(Digest(msg), r, s, w, u, v, n);
    var x1 := VerifierSum(q, u, v, dp);
    res := false;
    if x1.View() != Zero {
      res := x1.x % n == r;
    }
    assert res <==> Matches(u, v, r, q.View(), dp);
    if u': nat, v': nat :| Scalars(u', v', r, s, Digest(msg), n) && Matches(u', v', r, q.View(), dp) {
      ScalarsUnique(u, v, u', v', r, s, Digest(msg), n);
    }
  }

  /** What the code computes are the two scalars, */
  lemma ScalarsComputed(e: nat, r: int, s: int, w: int, u: int, v: int, n: int)
    requires n > 0 && Cong(w * s, 1, n) && u == MulMod(e % n, w, n) && v == MulMod(r, w, n)
    ensures 0 <= u && 0 <= v && Scalars(u, v, r, s, e, n)
  {
    hide Cong, MulMod;
    CongResidue(e, n);
    ScalarComputed(e, e % n, s, w, u, n);
    CongSelf(r, n);
    ScalarComputed(r, r, s, w, v, n);
  }

  lemma ScalarComputed(e: int, f: int, s: int, w: int, u: int, n: int)
    requires n > 0 && Cong(w * s, 1, n) && Cong(f, e, n) && Cong(u, f * w, n)
    ensures Cong(u * s, e, n)
  {
    hide Cong;
    ScalarIdentity(e, f, s, w, u);
    Combine3(n, u * s, e, s, u, f * w, f, w * s, 1, 1, f, e);
  }

  lemma ScalarIdentity(e: int, f: int, s: int, w: int, u: int)
    ensures u * s - e == s * (u - f * w) + f * (w * s - 1) + 1 * (f - e)
  {
    assert s * (f * w) == f * (w * s);
  }

  /** and there are no others. */
  lemma ScalarsUnique(u: nat, v: nat, u': nat, v': nat, r: int, s: int, e: nat, n: int)
    requires IsPrime(n) && !Cong(s, 0, n)
    requires Scalars(u, v, r, s, e, n) && Scalars(u', v', r, s, e, n)
    ensures u == u' && v == v'
  {
    hide Cong, IsPrime;
    SameNonce(u, u', s, e, n);
    SameNonce(v, v', s, r, n);
    if u != u' { CloseNotCong(u, u', n); }
    if v != v' { CloseNotCong(v, v', n); }
  }

  /** For the key Q = dG the check is passed exactly by signed pairs. */
  lemma AcceptedPair(r: int, s: int, e: nat, d: nat, q: Point, dp: Domain)
    requires ValidGroup(dp) && 0 < s < dp.order && 0 < r < dp.order
    requires OnCurve(q, dp) && q == Multiple(dp.base, d, dp)
    ensures Accepts(r, s, e, q, dp) <==> exists k :: SignedPair(r, s, e, d, k, dp)
  {
    hide Cong, IsPrime, Associative, Multiple, Add, Double, MulMod, InvMod, SignedPair, NonceFits, Product, OnCurve,
      Scalars;
    var n := dp.order;
    CloseNotCong(s, 0, n);
    var w := InvMod(s, n);
    var u, v := MulMod(e % n, w, n), MulMod(r, w, n);
    ScalarsComputed(e, r, s, w, u, v, n);
    NonceEquation(e, d, r, s, w, u, v, n);
    VerifierPoint(d, u, v, Product(d, v), dp) by { ProductIs(d, v); }
    AcceptedIffSigned(r, s, e, d, u + Product(d, v), dp);
    if u': nat, v': nat :| Scalars(u', v', r, s, e, n) && Matches(u', v', r, q, dp) {
      ScalarsUnique(u, v, u', v', r, s, e, n);
    }
  }

  lemma ProductIs(d: nat, v: nat)
    ensures Product(d, v) == d * v
  {
  }

  function Product(d: nat, v: nat): nat
  {
    d * v
  }

  lemma OutOfRange(sig: nat, e: nat, d: nat, dp: Domain)
    requires ValidGroup(dp)
    requires var s, r := sig / dp.order, sig % dp.order; s <= 0 || s >= dp.order || r <= 0
    ensures !IsSignature(sig, e, d, dp)
  {
    hide Associative, Multiple, Cong, IsPrime;
  }

  /** A scalar c with c*s = e + d*r is the nonce of (r, s), if it has one. */
  lemma AcceptedIffSigned(r: int, s: int, e: nat, d: nat, c: nat, dp: Domain)
    requires ValidGroup(dp) && 0 < s < dp.order && 0 < r < dp.order
    requires NonceFits(c, s, e, d, r, dp.order)
    ensures var p := Multiple(dp.base, c, dp);
            (p != Zero && p.x % dp.order == r) <==> exists k :: SignedPair(r, s, e, d, k, dp)
  {
    hide NonceFits, IsPrime, Associative, Multiple;
    var p := Multiple(dp.base, c, dp);
    if p != Zero && p.x % dp.order == r {
      NonceOfAccepted(r, s, e, d, c, dp);
    }
    if k :| SignedPair(r, s, e, d, k, dp) {
      NonceIsScalar(r, s, e, d, k, c, dp);
    }
  }

  lemma NonceIsScalar(r: int, s: int, e: nat, d: nat, k: nat, c: nat, dp: Domain)
    requires ValidGroup(dp) && 0 < s < dp.order
    requires NonceFits(c, s, e, d, r, dp.order) && NonceFits(k, s, e, d, r, dp.order)
    ensures Multiple(dp.base, k, dp) == Multiple(dp.base, c, dp)
  {
    hide Cong, IsPrime, Associative, Multiple;
    CloseNotCong(s, 0, dp.order);
    SameNonce(k, c, s, e + d * r, dp.order);
    ScalarsModOrder(k, c, dp);
  }

  lemma NonceOfAccepted(r: int, s: int, e: nat, d: nat, c: nat, dp: Domain)
    requires ValidGroup(dp) && 0 < s < dp.order && 0 < r < dp.order
    requires NonceFits(c, s, e, d, r, dp.order)
    requires Multiple(dp.base, c, dp) != Zero && Multiple(dp.base, c, dp).x % dp.order == r
    ensures exists k :: SignedPair(r, s, e, d, k, dp)
  {
    hide Cong, IsPrime, Associative, Add, Double;
    var k := c % dp.order;
    CongResidue(c, dp.order);
    ScalarsModOrder(k, c, dp);
    assert Multiple(dp.base, 0, dp) == Zero;
    SwapNonce(k, c, s, e + d * r, dp.order);
    assert SignedPair(r, s, e, d, k, dp);
  }

  lemma SwapNonce(k: int, c: int, s: int, t: int, n: int)
    requires n > 0 && Cong(k, c, n) && Cong(c * s, t, n)
    ensures Cong(k * s, t, n)
  {
    hide Cong;
    Combine2(n, k * s, t, s, k, c, 1, c * s, t);
  }

  lemma SameNonce(k: int, c: int, s: int, t: int, n: int)
    requires IsPrime(n) && !Cong(s, 0, n) && Cong(k * s, t, n) && Cong(c * s, t, n)
    ensures Cong(k, c, n)
  {
    hide Cong;
    Combine2(n, s * k, s * c, 1, k * s, t, -1, c * s, t);
    CancelFactor(s, k, c, n);
  }

  lemma NonceEquation(e: nat, d: nat, r: int, s: int, w: int, u: nat, v: nat, n: int)
    requires n > 0 && Cong(w * s, 1, n) && u == MulMod(e % n, w, n) && v == MulMod(r, w, n)
    ensures NonceFits(u + Product(d, v), s, e, d, r, n)
  {
    hide Cong, MulMod;
    CongResidue(e, n);
    NonceCongruence(e, e % n, d, r, s, w, u, v, n);
  }

  lemma NonceCongruence(e: int, f: int, d: int, r: int, s: int, w: int, u: int, v: int, n: int)
    requires n > 0 && Cong(w * s, 1, n) && Cong(f, e, n) && Cong(u, f * w, n) && Cong(v, r * w, n)
    ensures Cong((u + d * v) * s, e + d * r, n)
  {
    hide Cong;
    NonceIdentity(e, f, d, r, s, w, u, v);
    Combine4(n, (u + d * v) * s, e + d * r, s, u, f * w, d * s, v, r * w, f + d * r, w * s, 1, 1, f, e);
  }

  lemma NonceIdentity(e: int, f: int, d: int, r: int, s: int, w: int, u: int, v: int)
    ensures (u + d * v) * s - (e + d * r)
      == s * (u - f * w) + (d * s) * (v - r * w) + (f + d * r) * (w * s - 1) + 1 * (f - e)
  {
    assert (u + d * v) * s == s * u + (d * s) * v;
    assert (f + d * r) * (w * s) == s * (f * w) + (d * s) * (r * w);
  }
}
