/** The C operators `^`, `&` and `|` bit by bit, and what that makes of the XOR
    metric and of encrypted bytes. */
module Bitwise {
  import opened Bytes
  import opened Ids
  import opened DhtIds
  import opened DhtBlocks
  import opened DhtTable
  import opened DhtDistance
  import opened AesCtr

  lemma {:induction false} XorBitsBit(a: nat, b: nat, bits: nat, e: nat)
    requires e < bits
    ensures Bit(XorBits(a, b, bits), e) == (Bit(a, e) + Bit(b, e)) % 2
    decreases bits
  {
    var x, rest := XorBits(a, b, bits), XorBits(a / 2, b / 2, bits - 1);
    Halves((a + b) % 2, rest);
    if e > 0 {
      XorBitsBit(a / 2, b / 2, bits - 1, e - 1);
      HalfPow(x, e);
      HalfPow(a, e);
      HalfPow(b, e);
    } else {
      SumParity(a, b);
    }
  }

  lemma Halves(low: nat, rest: nat)
    requires low < 2
    ensures (low + 2 * rest) / 2 == rest && (low + 2 * rest) % 2 == low
  {
  }

  lemma SumParity(a: nat, b: nat)
    ensures (a + b) % 2 == (a % 2 + b % 2) % 2
  {
  }

  /** `a ^ b`: a bit is set where exactly one of the two has it. */
  lemma XorBit(a: Byte, b: Byte, e: nat)
    requires e < 8
    ensures Bit(Xor(a, b), e) == (Bit(a, e) + Bit(b, e)) % 2
  {
    XorBitsBit(a, b, 8, e);
  }

  /** `a & b`: where both have it. */
  lemma {:induction false} AndBit(a: nat, b: nat, e: nat)
    ensures Bit(BitAnd(a, b), e) == if Bit(a, e) == 1 && Bit(b, e) == 1 then 1 else 0
    decreases e
  {
    if a == 0 {
      ZeroBit(e);
    } else {
      Halves(if a % 2 == 1 && b % 2 == 1 then 1 else 0, BitAnd(a / 2, b / 2));
      if e > 0 {
        AndBit(a / 2, b / 2, e - 1);
        HalfPow(BitAnd(a, b), e);
        HalfPow(a, e);
        HalfPow(b, e);
      }
    }
  }

  /** `a | b`: where at least one has it. */
  lemma {:induction false} OrBit(a: nat, b: nat, e: nat)
    ensures Bit(BitOr(a, b), e) == if Bit(a, e) == 1 || Bit(b, e) == 1 then 1 else 0
    decreases e
  {
    if a + b == 0 {
      ZeroBit(e);
    } else {
      Halves(if a % 2 == 1 || b % 2 == 1 then 1 else 0, BitOr(a / 2, b / 2));
      if e > 0 {
        OrBit(a / 2, b / 2, e - 1);
        HalfPow(BitOr(a, b), e);
        HalfPow(a, e);
        HalfPow(b, e);
      }
    }
  }

  /** Masks of high bits are comparisons: `a & 0xE0` and `a & 0xC0` of an octet. */
  lemma HighMasks(a: Byte)
    ensures BitAnd(a, 0xE0) == 0xE0 <==> a >= 224
    ensures BitAnd(a, 0xC0) == 0x80 <==> 128 <= a < 192
  {
    hide BitAnd, Pow2;
    SmallPowers();
    AndLow(a / 32, 3);
    AndLow(a / 64, 2);
    AndShifted(a, 7, 5);
    AndShifted(a, 3, 6);
  }

  lemma SmallPowers()
    ensures Pow2(2) == 4 && Pow2(3) == 8 && Pow2(5) == 32 && Pow2(6) == 64
  {
  }

  /** A mask with n zeros at its end. */
  lemma {:induction false} AndShifted(a: nat, b: nat, n: nat)
    ensures BitAnd(a, b * Pow2(n)) == BitAnd(ShiftRight(a, n), b) * Pow2(n)
    decreases n
  {
    if n == 0 {
      assert Pow2(0) == 1;
    } else {
      Doubling(b, Pow2(n - 1));
      AndTwice(a, b * Pow2(n - 1));
      AndShifted(a / 2, b, n - 1);
      HalfPow(a, n);
      Doubling(BitAnd(ShiftRight(a, n), b), Pow2(n - 1));
    }
  }

  lemma Doubling(b: nat, p: nat)
    ensures b * (2 * p) == 2 * (b * p)
  {
  }

  lemma {:induction false} AndTwice(a: nat, b: nat)
    ensures BitAnd(a, 2 * b) == 2 * BitAnd(a / 2, b)
  {
    hide BitAnd;
    Halves(0, b);
    if a == 0 {
      AndNothing(2 * b);
      AndNothing(b);
    } else {
      AndUnfold(a, 2 * b);
    }
  }

  lemma AndNothing(b: nat)
    ensures BitAnd(0, b) == 0
  {
  }

  lemma {:induction false} AndUnfold(a: nat, b: nat)
    requires a > 0
    ensures BitAnd(a, b) == (if a % 2 == 1 && b % 2 == 1 then 1 else 0) + 2 * BitAnd(a / 2, b / 2)
  {
  }

  /** Which IPv4 addresses are refused: those without a port, of net 0, or from
      224.0.0.0 on. */
  lemma MartianV4(sa: Addr)
    requires sa.family == AF_INET
    ensures IsMartian(sa) <==> sa.port == 0 || Octet(sa, 0) == 0 || Octet(sa, 0) >= 224
  {
    HighMasks(Octet(sa, 0));
  }

  /** Link-local IPv6 addresses, fe80::/10, and multicast ones, ff00::/8, are refused. */
  lemma MartianV6(sa: Addr)
    requires sa.family == AF_INET6
    ensures Octet(sa, 0) == 0xFF || (Octet(sa, 0) == 0xFE && 128 <= Octet(sa, 1) < 192) ==> IsMartian(sa)
    ensures IsMartian(sa) && Octet(sa, 0) == 0xFE && sa.port != 0 ==> 128 <= Octet(sa, 1) < 192
  {
    HighMasks(Octet(sa, 1));
  }

  lemma ZeroBit(e: nat)
    ensures Bit(0, e) == 0
  {
    assert 0 / Pow2(e) == 0;
  }

  /** Bit e of the distance of two ids is set where bit e of exactly one of them is. */
  lemma DistanceBit(id: Id, target: Id, e: nat)
    requires e < 160
    ensures Bit(Distance(id, target), e) == (Bit(Key(id), e) + Bit(Key(target), e)) % 2
  {
    hide BigEndian, Bit, Xor;
    var i, f := 19 - e / 8, e % 8;
    BitOfByte(XorBytes(id, target), i, f);
    BitOfByte(id, i, f);
    BitOfByte(target, i, f);
    XorBit(id[i], target[i], f);
  }

  /** An id is at distance zero from itself only, and distances are symmetric. */
  lemma DistanceMetric(a: Id, b: Id)
    ensures Distance(a, b) == Distance(b, a) && (Distance(a, b) == 0 <==> a == b)
  {
    XorBytesCommute(a, b);
    XorBytesSelf(a);
    if Distance(a, b) == 0 {
      DistanceInjective(a, b, b) by { XorBytesSelf(b); }
    }
  }

  lemma XorBytesCommute(a: Id, b: Id)
    ensures XorBytes(a, b) == XorBytes(b, a)
  {
    forall i | 0 <= i < 20 ensures Xor(a[i], b[i]) == Xor(b[i], a[i]) {
      XorBitsCommute(a[i], b[i], 8);
    }
  }

  lemma {:induction false} XorBitsCommute(a: nat, b: nat, bits: nat)
    ensures XorBits(a, b, bits) == XorBits(b, a, bits)
  {
    if bits > 0 { XorBitsCommute(a / 2, b / 2, bits - 1); }
  }

  lemma {:induction false} XorBitsSelf(a: nat, bits: nat)
    ensures XorBits(a, a, bits) == 0
  {
    if bits > 0 { XorBitsSelf(a / 2, bits - 1); }
  }

  lemma XorBytesSelf(a: Id)
    ensures Distance(a, a) == 0
  {
    var x := XorBytes(a, a);
    forall i | 0 <= i < 20 ensures x[i] == 0 {
      XorBitsSelf(a[i], 8);
    }
    ZeroBytes(x);
  }

  /** Every bit of an encrypted byte is the message bit, flipped where the key
      stream has a one. */
  lemma StreamBit(ks: nat -> Byte, pos: nat, s: seq<Byte>, i: nat, e: nat)
    requires i < |s| && e < 8
    ensures Bit(XorStream(ks, pos, s)[i], e) == (Bit(s[i], e) + Bit(ks(pos + i), e)) % 2
  {
    hide Xor, Bit;
    XorBit(s[i], ks(pos + i), e);
  }
}
