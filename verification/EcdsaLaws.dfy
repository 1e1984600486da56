/** What nonces and signatures depend on: every nonce can be drawn, a digest
    determines its message, and one signature serves another message only in the
    ways named here. */
module EcdsaLaws {
  import opened Bytes
  import opened ModArith
  import opened Primes
  import opened Mpi
  import Serialize
  import opened Curve
  import opened Ecc
  import opened GroupLaw
  import opened Ecdsa

  // ------------------------------------------------- nonces and digests

  /** The bytes of a digest, at the length of the message, are the message. */
  lemma DigestDigits(msg: seq<Byte>)
    ensures Digest(msg) < Pow(256, |msg|) && Serialize.Digits(Digest(msg), |msg|, 256) == msg
  {
    Serialize.DigitsOfValue(msg, 256);
  }

  lemma DigestInjective(a: seq<Byte>, b: seq<Byte>)
    requires |a| == |b|
    ensures Digest(a) == Digest(b) <==> a == b
  {
    DigestDigits(a);
    DigestDigits(b);
  }

  /** Every scalar from 1 to order - 1 is the nonce of some buffer, as long as the
      buffer is long enough for that many values. */
  lemma NonceOnto(k: int, order: int, len: nat) returns (buf: seq<Byte>)
    requires 1 <= k < order && order - 1 <= Pow(256, len)
    ensures |buf| == len && BufToExponent(buf, order) == k
  {
    var ds := Serialize.Digits(k - 1, len, 256);
    Serialize.ValueOfDigits(k - 1, len, 256);
    buf := seq(len, i requires 0 <= i < len => ds[i]);
    assert buf == ds;
    SmallResidue(k - 1, order - 1);
  }

  /** Two buffers give one nonce exactly when they are congruent modulo order - 1. */
  lemma NonceCollision(a: seq<Byte>, b: seq<Byte>, order: int)
    requires order >= 2
    ensures BufToExponent(a, order) == BufToExponent(b, order) <==> Cong(Digest(a), Digest(b), order - 1)
  {
    CongIffSameResidue(Digest(a), Digest(b), order - 1);
  }

  /** A nonce yields no signature exactly if its abscissa is 0 modulo the order, or
      the digest is the one for which s would be 0. */
  lemma UnusableExactly(buf: seq<Byte>, e: nat, d: nat, dp: Domain)
    requires ValidGroup(dp)
    ensures Unusable(buf, e, d, dp) <==>
            var r := Multiple(dp.base, BufToExponent(buf, dp.order), dp).x % dp.order;
            r == 0 || Cong(e + d * r, 0, dp.order)
  {
    var n, k := dp.order, BufToExponent(buf, dp.order);
    CloseNotCong(k, 0, n);
    hide Multiple, Associative, BufToExponent, Cong, IsPrime, AddMod, MulMod, InvMod, ValidDomain, OnCurve;
    var r := Multiple(dp.base, k, dp).x % n;
    if r == 0 {
      ZeroAbscissa(buf, e, d, dp);
    } else {
      var s := MulMod(AddMod(MulMod(d, r, n), e % n, n), InvMod(k, n), n);
      SignatureEquation(e, d, k, r, s, n);
      if s == 0 {
        ZeroSignature(buf, e, d, k, r, s, dp);
        assert k * s == 0;
        CongSym(0, e + d * r, n);
      } else {
        PackedSignature(e, d, k, r, s, dp);
        assert SignedWith(s * n + r, e, d, k, dp);
        if Cong(e + d * r, 0, n) { NonzeroPart(k, s, e + d * r, n); }
      }
    }
  }

  lemma NonzeroPart(k: int, s: int, t: int, n: int)
    requires IsPrime(n) && n > 0 && !Cong(k, 0, n) && 0 < s < n && Cong(k * s, t, n)
    ensures !Cong(t, 0, n)
  {
    CloseNotCong(s, 0, n);
    ProductNonzero(k, s, n);
    hide Cong;
    if Cong(t, 0, n) { CongTrans(k * s, t, 0, n); }
  }

  // --------------------------------------------- multiples of the base

  /** The multiples on both sides of the order mirror each other. */
  lemma MultipleNeg(k: nat, dp: Domain)
    requires ValidGroup(dp) && k <= dp.order
    ensures Multiple(dp.base, dp.order - k, dp) == Neg(Multiple(dp.base, k, dp), dp)
  {
    hide Associative, Multiple, Add, IsPrime;
    MultipleAdd(dp.base, k, dp.order - k, dp);
    AddInverse(Multiple(dp.base, k, dp), Multiple(dp.base, dp.order - k, dp), dp);
  }

  /** No multiple vanishes that is not one of the order. */
  lemma MultipleNonzero(k: nat, dp: Domain)
    requires ValidGroup(dp) && dp.base != Zero && !Cong(k, 0, dp.order)
    ensures Multiple(dp.base, k, dp) != Zero
  {
    hide Associative, Add, IsPrime, Cong, Multiple, InvMod, OnCurve;
    if Multiple(dp.base, k, dp) == Zero {
      var i := InvMod(k, dp.order);
      MultipleMul(dp.base, k, i, k * i, dp) by { ProductNonnegative(k, i); }
      MultipleOfZero(i, dp);
      assert k * i == i * k;
      ProductNonnegative(k, i);
      ScalarsModOrder(k * i, 1, dp);
      MultipleOne(dp.base, dp);
    }
  }

  lemma ProductNonnegative(a: nat, b: nat)
    ensures a * b >= 0
  {
  }

  lemma MultipleOne(p: Point, dp: Domain)
    requires ValidDomain(dp) && OnCurve(p, dp)
    ensures Multiple(p, 1, dp) == p && Multiple(p, 0, dp) == Zero
  {
  }

  /** Scalars below the order are told apart by their multiples. */
  lemma MultipleInjective(a: nat, b: nat, dp: Domain)
    requires ValidGroup(dp) && dp.base != Zero && a <= dp.order
    requires Multiple(dp.base, a, dp) == Multiple(dp.base, b, dp)
    ensures Cong(a, b, dp.order)
  {
    hide Associative, Add, IsPrime, Cong, Multiple;
    var n, p := dp.order, Multiple(dp.base, a, dp);
    MultipleNeg(a, dp);
    MultipleAdd(dp.base, b, n - a, dp);
    NegOnCurve(p, dp);
    AddInverse(p, Neg(p, dp), dp);
    if !Cong(b + (n - a), 0, n) { MultipleNonzero(b + (n - a), dp); }
    CongFromWitness(n, 0, n, 1);
    Combine2(n, a, b, -1, b + (n - a), 0, 1, n, 0);
  }

  /** One abscissa leaves two scalars, k and -k. */
  lemma ScalarsOfAbscissa(a: nat, b: nat, dp: Domain)
    requires ValidGroup(dp) && dp.base != Zero && 0 < a < dp.order && 0 < b < dp.order
    ensures Multiple(dp.base, a, dp).x == Multiple(dp.base, b, dp).x <==>
            Cong(a, b, dp.order) || Cong(a + b, 0, dp.order)
  {
    hide Associative, Add, IsPrime, Cong, Multiple, OnCurve, ValidDomain;
    MirrorScalar(a, b, dp.order);
    MultipleNeg(a, dp);
    if Cong(a, b, dp.order) {
      ScalarsModOrder(a, b, dp);
    } else if Cong(a + b, 0, dp.order) {
      ScalarsModOrder(dp.order - a, b, dp);
    } else if Multiple(dp.base, a, dp).x == Multiple(dp.base, b, dp).x {
      AbscissaTwice(a, b, dp);
    }
  }

  lemma AbscissaTwice(a: nat, b: nat, dp: Domain)
    requires ValidGroup(dp) && dp.base != Zero && 0 < a < dp.order && 0 < b < dp.order
    requires Multiple(dp.base, a, dp).x == Multiple(dp.base, b, dp).x
    ensures Cong(a, b, dp.order) || Cong(dp.order - a, b, dp.order)
  {
    hide Associative, Add, IsPrime, Cong, Multiple, OnCurve, Finite;
    CloseNotCong(a, 0, dp.order);
    CloseNotCong(b, 0, dp.order);
    var p, q := Multiple(dp.base, a, dp), Multiple(dp.base, b, dp);
    MultipleNonzero(a, dp);
    MultipleNonzero(b, dp);
    FiniteNonzero(p, dp);
    FiniteNonzero(q, dp);
    SameAbscissa(p, q, dp);
    MultipleNeg(a, dp);
    if p == q {
      MultipleInjective(a, b, dp);
    } else {
      MultipleInjective(dp.order - a, b, dp);
    }
  }

  lemma MirrorScalar(a: int, b: int, n: int)
    requires n > 0
    ensures Cong(n - a, b, n) <==> Cong(a + b, 0, n)
  {
    CongFromWitness(n, 0, n, 1);
    hide Cong;
    if Cong(n - a, b, n) { Combine2(n, a + b, 0, -1, n - a, b, 1, n, 0); }
    if Cong(a + b, 0, n) { Combine2(n, n - a, b, -1, a + b, 0, 1, n, 0); }
  }

  // ---------------------------------------- one signature, two messages

  /** The two digests name points of different abscissas that agree modulo the
      order, which takes a field larger than the group. */
  ghost predicate AbscissasWrap(r: int, s: int, e1: nat, e2: nat, d: nat, dp: Domain)
    requires ValidGroup(dp)
  {
    exists k1: nat, k2: nat ::
      && NonceFits(k1, s, e1, d, r, dp.order) && NonceFits(k2, s, e2, d, r, dp.order)
      && Wrapped(Multiple(dp.base, k1, dp).x, Multiple(dp.base, k2, dp).x, dp.order)
  }

  predicate Wrapped(x1: int, x2: int, n: int)
    requires n > 0
  {
    x1 != x2 && x1 % n == x2 % n
  }

  lemma NoWrap(r: int, s: int, e1: nat, e2: nat, d: nat, dp: Domain)
    requires ValidGroup(dp) && dp.m <= dp.order
    ensures !AbscissasWrap(r, s, e1, e2, d, dp)
  {
    hide Associative, Add, IsPrime, Cong, Multiple, NonceFits, SolvesEquation;
    forall k1: nat, k2: nat ensures !Wrapped(Multiple(dp.base, k1, dp).x, Multiple(dp.base, k2, dp).x, dp.order) {
      SmallResidue(Multiple(dp.base, k1, dp).x, dp.order);
      SmallResidue(Multiple(dp.base, k2, dp).x, dp.order);
    }
  }

  /** A signed pair for one digest is one for another digest exactly if the digests
      are congruent, or are mirrored about -d*r, or their abscissas wrap. */
  lemma PairServesBoth(r: int, s: int, e1: nat, e2: nat, d: nat, k1: nat, dp: Domain)
    requires ValidGroup(dp) && SignedPair(r, s, e1, d, k1, dp)
    ensures (exists k2 :: SignedPair(r, s, e2, d, k2, dp)) <==>
            || Cong(e1, e2, dp.order)
            || Cong(e1 + e2 + 2 * (d * r), 0, dp.order)
            || AbscissasWrap(r, s, e1, e2, d, dp)
  {
    hide Associative, Add, IsPrime, Cong, Multiple, OnCurve;
    var n := dp.order;
    BaseNonzero(r, s, e1, d, k1, dp);
    if k2 :| SignedPair(r, s, e2, d, k2, dp) {
      ServesOnly(r, s, e1, e2, d, k1, k2, dp);
    }
    if Cong(e1, e2, n) {
      ShiftNonce(k1, s, e1, e2, d, r, n);
      assert SignedPair(r, s, e2, d, k1, dp);
    } else if Cong(e1 + e2 + 2 * (d * r), 0, n) {
      MirrorNonce(k1, s, e1, e2, d, r, n);
      MultipleNeg(k1, dp);
      assert SignedPair(r, s, e2, d, n - k1, dp);
    } else if AbscissasWrap(r, s, e1, e2, d, dp) {
      WrapServes(r, s, e1, e2, d, k1, dp);
    }
  }

  /** A pair with r > 0 was not made with a neutral base. */
  lemma BaseNonzero(r: int, s: int, e: nat, d: nat, k: nat, dp: Domain)
    requires ValidGroup(dp) && SignedPair(r, s, e, d, k, dp)
    ensures dp.base != Zero
  {
    hide Associative, Add, IsPrime, Cong, Multiple;
    if dp.base == Zero {
      MultipleOfZero(k, dp);
      SmallResidue(0, dp.order);
    }
  }

  lemma ServesOnly(r: int, s: int, e1: nat, e2: nat, d: nat, k1: nat, k2: nat, dp: Domain)
    requires ValidGroup(dp) && dp.base != Zero
    requires SignedPair(r, s, e1, d, k1, dp) && SignedPair(r, s, e2, d, k2, dp)
    ensures || Cong(e1, e2, dp.order) || Cong(e1 + e2 + 2 * (d * r), 0, dp.order)
            || AbscissasWrap(r, s, e1, e2, d, dp)
  {
    hide Associative, Add, IsPrime, Cong, Multiple, OnCurve;
    var n, t1, t2 := dp.order, e1 + d * r, e2 + d * r;
    if Multiple(dp.base, k1, dp).x == Multiple(dp.base, k2, dp).x {
      ScalarsOfAbscissa(k1, k2, dp);
      if Cong(k1, k2, n) {
        DigestShift(k1, k2, s, t1, t2);
        Combine3(n, e1, e2, -1, k1 * s, t1, 1, k2 * s, t2, s, k1, k2);
      } else {
        DigestMirror(k1, k2, s, t1, t2);
        Combine3(n, e1 + e2 + 2 * (d * r), 0, -1, k1 * s, t1, -1, k2 * s, t2, s, k1 + k2, 0);
      }
    } else {
      assert Wrapped(Multiple(dp.base, k1, dp).x, Multiple(dp.base, k2, dp).x, n);
    }
  }

  lemma DigestShift(k1: int, k2: int, s: int, t1: int, t2: int)
    ensures t1 - t2 == -1 * (k1 * s - t1) + 1 * (k2 * s - t2) + s * (k1 - k2)
  {
  }

  lemma DigestMirror(k1: int, k2: int, s: int, t1: int, t2: int)
    ensures t1 + t2 == -1 * (k1 * s - t1) + -1 * (k2 * s - t2) + s * (k1 + k2)
  {
  }

  lemma ShiftNonce(k: int, s: int, e1: int, e2: int, d: int, r: int, n: int)
    requires n > 0 && NonceFits(k, s, e1, d, r, n) && Cong(e1, e2, n)
    ensures NonceFits(k, s, e2, d, r, n)
  {
    hide Cong;
    Combine2(n, k * s, e2 + d * r, 1, k * s, e1 + d * r, 1, e1, e2);
  }

  lemma MirrorNonce(k: int, s: int, e1: int, e2: int, d: int, r: int, n: int)
    requires n > 0 && NonceFits(k, s, e1, d, r, n) && Cong(e1 + e2 + 2 * (d * r), 0, n)
    ensures NonceFits(n - k, s, e2, d, r, n)
  {
    hide Cong;
    CongFromWitness(n, 0, n, 1);
    var t := d * r;
    MirrorProduct(n, k, s);
    Combine3(n, (n - k) * s, e2 + t, -1, k * s, e1 + t, -1, e1 + e2 + 2 * t, 0, s, n, 0);
  }

  lemma MirrorProduct(n: int, k: int, s: int)
    ensures (n - k) * s == s * n - k * s
  {
  }

  /** Wrapping abscissas make the pair serve both: its nonce for the second digest
      is the one scalar that fits. */
  lemma WrapServes(r: int, s: int, e1: nat, e2: nat, d: nat, k: nat, dp: Domain)
    requires ValidGroup(dp) && SignedPair(r, s, e1, d, k, dp) && AbscissasWrap(r, s, e1, e2, d, dp)
    ensures exists k2 :: SignedPair(r, s, e2, d, k2, dp)
  {
    hide Associative, Add, IsPrime, Cong, Multiple, OnCurve, NonceFits;
    var k1: nat, k2: nat :|
      && NonceFits(k1, s, e1, d, r, dp.order) && NonceFits(k2, s, e2, d, r, dp.order)
      && Wrapped(Multiple(dp.base, k1, dp).x, Multiple(dp.base, k2, dp).x, dp.order);
    NonceIsScalar(r, s, e1, d, k, k1, dp);
    var x := Multiple(dp.base, k2, dp).x;
    assert x % dp.order == r;
    SmallResidue(0, dp.order);
    NonceOfAccepted(r, s, e2, d, k2, dp);
  }

  /** When a signature of one message is accepted for another. */
  lemma SignatureServesBoth(sig: nat, e1: nat, e2: nat, d: nat, dp: Domain)
    requires ValidGroup(dp) && IsSignature(sig, e1, d, dp)
    ensures IsSignature(sig, e2, d, dp) <==>
            || Cong(e1, e2, dp.order)
            || Cong(e1 + e2 + 2 * (d * (sig % dp.order)), 0, dp.order)
            || AbscissasWrap(sig % dp.order, sig / dp.order, e1, e2, d, dp)
  {
    hide Associative, IsPrime, Cong, SignedPair, AbscissasWrap, ValidDomain, OnCurve;
    var k1: nat :| SignedWith(sig, e1, d, k1, dp);
    var r, s := sig % dp.order, sig / dp.order;
    InRange(r, s, e1, d, k1, dp);
    PairServesBoth(r, s, e1, e2, d, k1, dp);
    SignaturePair(sig, e2, d, dp);
  }

  lemma InRange(r: int, s: int, e: nat, d: nat, k: nat, dp: Domain)
    requires ValidGroup(dp) && SignedPair(r, s, e, d, k, dp)
    ensures 1 <= k && 0 < r < dp.order && 0 < s < dp.order
  {
    hide Associative, IsPrime, Cong, Multiple;
  }

  /** Signing one message and verifying another under the same key: accepted
      exactly in these cases, the last of which takes a field larger than the group. */
  method SignThenVerify(m1: seq<Byte>, m2: seq<Byte>, d: nat, q: AffinePoint, dp: Domain, nonces: seq<seq<Byte>>)
    returns (sig: int, res: bool)
    requires ValidGroup(dp) && q.View() == Multiple(dp.base, d, dp)
    ensures sig >= 0 ==>
      (res <==>
        || Cong(Digest(m1), Digest(m2), dp.order)
        || Cong(Digest(m1) + Digest(m2) + 2 * (d * (sig % dp.order)), 0, dp.order)
        || AbscissasWrap(sig % dp.order, sig / dp.order, Digest(m1), Digest(m2), d, dp))
    ensures sig >= 0 && m1 == m2 ==> res
  {
    hide Associative, IsPrime, Cong, IsSignature, AbscissasWrap, ValidDomain, Accepts, Digest, Unusable, OnCurve,
      SignedWith, Multiple;
    res := false;
    sig := EcdsaSign(m1, d, dp, nonces);
    if sig >= 0 {
      res := EcdsaVerify(m2, q, sig, dp);
      SignatureServesBoth(sig, Digest(m1), Digest(m2), d, dp);
    }
  }
}
