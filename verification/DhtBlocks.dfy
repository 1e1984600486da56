/** The aligned blocks of ids that buckets cover, and the bit code that halves
    them and draws from them. */
module DhtBlocks {
  import opened Bytes
  import opened ModArith
  import opened Ids
  import opened DhtIds

  // --------------------------------------------- multiples of powers of two

  predicate Divides(p: nat, v: nat)
    requires p > 0
  {
    v % p == 0
  }

  lemma DividesIs(p: nat, v: nat)
    requires p > 0
    ensures Divides(p, v) <==> v % p == 0
  {
  }

  lemma MultipleIs(v: nat, p: nat, q: nat)
    requires p > 0 && v == q * p
    ensures Divides(p, v) && v / p == q
  {
    DivUnique(v, p, q, 0);
  }

  lemma AsMultiple(v: nat, p: nat) returns (q: nat)
    requires p > 0 && Divides(p, v)
    ensures v == q * p && q == v / p
  {
    QuotientNonnegative(v, p);
    q := v / p;
  }

  lemma Scale(q: nat, c: nat, p: nat)
    ensures q * (c * p) == (q * c) * p && c * (q * p) == q * (c * p)
  {
  }

  lemma ScaleDivides(v: nat, p: nat, c: nat)
    requires p > 0 && c > 0
    ensures c * p > 0 && (Divides(c * p, c * v) <==> Divides(p, v))
  {
    assert c * p > 0;
    if Divides(p, v) {
      var q := AsMultiple(v, p);
      Scale(q, c, p);
      MultipleIs(c * v, c * p, q);
    }
    if Divides(c * p, c * v) {
      var q := AsMultiple(c * v, c * p);
      Scale(q, c, p);
      CancelInt(c, v, q * p);
      MultipleIs(v, p, q);
    }
  }

  lemma CancelInt(c: int, a: int, b: int)
    requires c != 0 && c * a == c * b
    ensures a == b
  {
    assert c * (a - b) == 0;
  }

  /** A multiple of 2^(a+b) is one of 2^b. */
  lemma DividesLess(a: nat, b: nat, v: nat)
    requires Divides(Pow2(a + b), v)
    ensures Divides(Pow2(b), v)
  {
    Pow2Add(a, b);
    var q := AsMultiple(v, Pow2(a + b));
    assert v == (q * Pow2(a)) * Pow2(b) by { Scale(q, Pow2(a), Pow2(b)); }
    MultipleIs(v, Pow2(b), q * Pow2(a));
  }

  lemma DividesSum(p: nat, v: nat, w: nat)
    requires p > 0 && Divides(p, v)
    ensures Divides(p, v + w) <==> Divides(p, w)
  {
    var q := AsMultiple(v, p);
    if Divides(p, w) {
      var r := AsMultiple(w, p);
      assert v + w == (q + r) * p;
      MultipleIs(v + w, p, q + r);
    }
    if Divides(p, v + w) {
      var r := AsMultiple(v + w, p);
      assert w == (r - q) * p;
      DivUnique(w, p, r - q, 0);
    }
  }

  lemma NextClear(v: nat, e: nat)
    requires Divides(Pow2(e), v)
    ensures Divides(Pow2(e + 1), v) <==> Bit(v, e) == 0
  {
    var p := Pow2(e);
    var q := AsMultiple(v, p);
    if q % 2 == 0 {
      assert v == (q / 2) * (2 * p);
      MultipleIs(v, 2 * p, q / 2);
    }
    if Divides(2 * p, v) {
      var r := AsMultiple(v, 2 * p);
      assert v == (2 * r) * p;
      MultipleIs(v, p, 2 * r);
    }
  }

  /** The lowest set bit is at least the exponent of any power of two dividing. */
  lemma BitAbove(v: nat, k: nat, e: nat)
    requires Divides(Pow2(k), v) && Bit(v, e) == 1
    ensures e >= k
  {
    if e < k {
      DividesLess(k - e, e, v);
      DividesLess(k - (e + 1), e + 1, v);
      NextClear(v, e);
    }
  }

  // ------------------------------------------------- bytes of a number

  lemma Width()
    ensures Pow2(8) == 256
  {
    assert Pow2(4) == 16;
  }

  lemma LastByte(s: seq<Byte>)
    requires s != []
    ensures BigEndian(s) == 256 * BigEndian(s[..|s| - 1]) + s[|s| - 1]
  {
  }

  lemma ByteDivides(n: nat, b: Byte, e: nat)
    requires e <= 8
    ensures Divides(Pow2(e), 256 * n + b) <==> Divides(Pow2(e), b)
  {
    hide Divides;
    Width();
    Pow2Add(8 - e, e);
    assert 256 * n == (Pow2(8 - e) * n) * Pow2(e) by { Scale(n, Pow2(8 - e), Pow2(e)); }
    MultipleIs(256 * n, Pow2(e), Pow2(8 - e) * n);
    DividesSum(Pow2(e), 256 * n, b);
  }

  lemma WholeByteDivides(n: nat, b: Byte, x: nat)
    ensures Divides(Pow2(x + 8), 256 * n + b) <==> b == 0 && Divides(Pow2(x), n)
  {
    hide Pow2, Divides;
    Width();
    Pow2Add(8, x);
    ScaleDivides(n, Pow2(x), 256);
    if Divides(Pow2(x + 8), 256 * n + b) {
      DividesLess(x, 8, 256 * n + b);
      ByteDivides(n, b, 8);
    }
  }

  /** Divisibility of the number, byte by byte. */
  lemma {:induction false} LowBytes(s: seq<Byte>, i: nat, e: nat)
    requires i < |s| && e <= 8
    ensures Divides(Pow2(8 * (|s| - 1 - i) + e), BigEndian(s)) <==>
      Divides(Pow2(e), s[i]) && forall j :: i < j < |s| ==> s[j] == 0
    decreases |s|
  {
    var n := |s| - 1;
    LastByte(s);
    if i == n {
      ByteDivides(BigEndian(s[..n]), s[n], e);
    } else {
      LowBytes(s[..n], i, e);
      WholeByteDivides(BigEndian(s[..n]), s[n], 8 * (n - 1 - i) + e);
    }
  }

  lemma BitOfLast(n: nat, b: Byte, e: nat)
    requires e < 8
    ensures Bit(256 * n + b, e) == Bit(b, e)
  {
    hide Pow2;
    var p, h := Pow2(e), Pow2(7 - e) * n;
    HigherBits(n, e);
    BitOfSum(256 * n + b, 2 * h, b, p);
    EvenAdded(h, b / p);
  }

  lemma BitOfSum(x: int, a: int, b: int, p: int)
    requires p > 0 && x == a * p + b
    ensures x / p == a + b / p
  {
    SumOfMultiples(a, b, p);
    DivUnique(x, p, a + b / p, b % p);
  }

  lemma EvenAdded(h: int, q: int)
    ensures (2 * h + q) % 2 == q % 2
  {
  }

  lemma HigherBits(n: nat, e: nat)
    requires e < 8
    ensures 256 * n == (2 * (Pow2(7 - e) * n)) * Pow2(e)
  {
    Width();
    Pow2Add(7 - e, e);
    Pow2Add(7, 1);
    hide Pow2;
    Scale(n, Pow2(7 - e), Pow2(e));
    TwiceProduct(Pow2(7 - e) * n, Pow2(e));
  }

  lemma TwiceProduct(h: int, p: int)
    ensures (2 * h) * p == 2 * (h * p)
  {
  }

  lemma SumOfMultiples(a: int, b: int, p: int)
    requires p > 0
    ensures a * p + b == (a + b / p) * p + b % p
  {
  }

  lemma BitOfHigher(n: nat, b: Byte, x: nat)
    ensures Bit(256 * n + b, x + 8) == Bit(n, x)
  {
    Width();
    Pow2Add(8, x);
    DivDiv(256 * n + b, 256, Pow2(x));
    DivUnique(256 * n + b, 256, n, b);
  }

  lemma {:induction false} BitOfByte(s: seq<Byte>, i: nat, e: nat)
    requires i < |s| && e < 8
    ensures Bit(BigEndian(s), 8 * (|s| - 1 - i) + e) == Bit(s[i], e)
    decreases |s|
  {
    var n := |s| - 1;
    LastByte(s);
    if i == n {
      BitOfLast(BigEndian(s[..n]), s[n], e);
    } else {
      BitOfByte(s[..n], i, e);
      BitOfHigher(BigEndian(s[..n]), s[n], 8 * (n - 1 - i) + e);
    }
  }

  lemma {:induction false} Joined(a: seq<Byte>, b: seq<Byte>)
    ensures BigEndian(a + b) == BigEndian(a) * Pow2(8 * |b|) + BigEndian(b)
    decreases |b|
  {
    if b == [] {
      assert a + b == a;
    } else {
      var c, x := b[..|b| - 1], b[|b| - 1];
      assert a + b == (a + c) + [x];
      Joined(a, c);
      LastByte(b);
      LastByte(a + b);
      assert (a + b)[..|a + b| - 1] == a + c;
      Width();
      Pow2Add(8, 8 * |c|);
      Scale(BigEndian(a), 256, Pow2(8 * |c|));
    }
  }

  // --------------------------------------------------------- lowbit

  /** `bit`, counted from the top, is the lowest one set in v; -1 for zero. */
  predicate IsLowBit(v: nat, bit: int)
  {
    if v == 0 then bit == -1 else 0 <= bit < 160 && Divides(Pow2(159 - bit), v) && Bit(v, 159 - bit) == 1
  }

  lemma {:induction false} ZeroBytes(s: seq<Byte>)
    ensures BigEndian(s) == 0 <==> forall j :: 0 <= j < |s| ==> s[j] == 0
    decreases |s|
  {
    if s != [] { ZeroBytes(s[..|s| - 1]); }
  }

  /** `lowbit`. */
  method LowBit(id: Id) returns (bit: int)
    ensures IsLowBit(BigEndian(id), bit)
  {
    var i := 19;
    while i >= 0
      invariant -1 <= i <= 19 && forall k :: i < k < 20 ==> id[k] == 0
    {
      if id[i] != 0 {
        break;
      }
      i := i - 1;
    }
    ZeroBytes(id);
    if i < 0 {
      return -1;
    }
    var j := FindBit(id[i]);
    LowBytes(id, i, 7 - j);
    BitOfByte(id, i, 7 - j);
    bit := 8 * i + j;
  }

  /** The inner loop of `lowbit`. */
  method FindBit(b: Byte) returns (j: nat)
    requires b != 0
    ensures j < 8 && Divides(Pow2(7 - j), b) && Bit(b, 7 - j) == 1
  {
    j := 7;
    assert Pow2(0) == 1;
    while true
      invariant 0 <= j <= 7 && Divides(Pow2(7 - j), b)
      decreases j
    {
      Masks(j);
      AndPow(b, 7 - j);
      if BitAnd(b, ShiftRight(0x80, j)) != 0 {
        break;
      }
      NextClear(b, 7 - j);
      if j == 0 {
        Width();
        DivUnique(b, 256, 0, b);
        assert false;
      }
      j := j - 1;
    }
  }

  // -------------------------------------------------- aligned blocks

  /** [lo, hi) is an aligned block of 2^k ids. */
  predicate Aligned(lo: nat, hi: nat, k: nat)
  {
    hi == lo + Pow2(k) && Divides(Pow2(k), lo)
  }

  /** The exclusive end of a bucket: the next bucket's first id, if there is one. */
  function EndOf(next: seq<Id>): nat
  {
    if next == [] then IdSpace() else BigEndian(next[0])
  }

  lemma EndBits(lo: nat, hi: nat, k: nat)
    requires Aligned(lo, hi, k)
    ensures Divides(Pow2(k), hi) && (Bit(lo, k) == 1 <==> Bit(hi, k) == 0)
  {
    var p := Pow2(k);
    var q := AsMultiple(lo, p);
    assert hi == (q + 1) * p;
    MultipleIs(hi, p, q + 1);
  }

  lemma {:induction false} Pow2Order(a: nat, b: nat)
    ensures Pow2(a) < Pow2(b) <==> a < b
  {
    if a > 0 && b > 0 { Pow2Order(a - 1, b - 1); }
  }

  lemma BlockFits(lo: nat, hi: nat, k: nat)
    requires Aligned(lo, hi, k) && hi <= IdSpace()
    ensures k <= 160 && (k == 160 ==> lo == 0 && hi == IdSpace())
  {
    hide Pow2;
    Pow2Order(160, k);
  }

  lemma EvenPower(n: nat, k: nat)
    requires k < n
    ensures Bit(Pow2(n), k) == 0
  {
    hide Pow2;
    Pow2Add(n - k, k);
    MultipleIs(Pow2(n), Pow2(k), Pow2(n - k));
    Doubles(n - k - 1);
    EvenAdded(Pow2(n - k - 1), 0);
  }

  lemma OddPower(n: nat, k: nat)
    requires k <= n && Bit(Pow2(n), k) == 1
    ensures k == n
  {
    if k < n { EvenPower(n, k); }
  }

  lemma TopBlock(lo: nat, k: nat)
    requires Aligned(lo, IdSpace(), k) && Bit(lo, k) == 0
    ensures k == 160
  {
    hide Pow2, Bit;
    BlockFits(lo, IdSpace(), k);
    EndBits(lo, IdSpace(), k);
    BitIsBit(IdSpace(), k);
    OddPower(160, k);
  }

  lemma BitIsBit(v: nat, k: nat)
    ensures Bit(v, k) == 0 || Bit(v, k) == 1
  {
  }

  /** The higher of the lowest bits of both ends tells the size of a block. */
  lemma SplitBit(lo: nat, hi: nat, k: nat, bit1: int, bit2: int)
    requires Aligned(lo, hi, k) && hi <= IdSpace() && IsLowBit(lo, bit1)
    requires if hi == IdSpace() then bit2 == -1 else IsLowBit(hi, bit2)
    ensures (if bit1 >= bit2 then bit1 else bit2) + 1 == 160 - k
  {
    hide Pow2, Bit, Divides, IdSpace;
    BlockFits(lo, hi, k);
    EndBits(lo, hi, k);
    BitIsBit(lo, k);
    BitIsBit(hi, k);
    AlignedParts(lo, hi, k);
    if lo > 0 {
      BitAbove(lo, k, 159 - bit1);
      if Bit(lo, k) == 1 { BitAbove(lo, 159 - bit1, k); }
    }
    if hi != IdSpace() {
      BitAbove(hi, k, 159 - bit2);
      if Bit(hi, k) == 1 { BitAbove(hi, 159 - bit2, k); }
    } else if Bit(lo, k) == 0 {
      TopBlock(lo, k);
    }
    if lo == 0 { ZeroBit(k); }
  }

  lemma AlignedParts(lo: nat, hi: nat, k: nat)
    requires Aligned(lo, hi, k)
    ensures Divides(Pow2(k), lo) && hi > lo
  {
  }

  lemma ZeroBit(k: nat)
    ensures Bit(0, k) == 0
  {
    DivUnique(0, Pow2(k), 0, 0);
  }

  // ------------------------------------------------ bucket_middle

  /** The common prologue: which bit tells the two halves apart. */
  method MiddleBit(first: Id, next: seq<Id>, ghost k: nat) returns (bit: int)
    requires |next| <= 1 && Aligned(BigEndian(first), EndOf(next), k)
    ensures bit == 160 - k && 0 <= bit <= 160
  {
    hide Aligned, IsLowBit, IdSpace, Pow2;
    var bit1 := LowBit(first);
    var bit2 := -1;
    if next != [] {
      bit2 := LowBit(next[0]);
      IdBound(next[0]);
    }
    bit := (if bit1 >= bit2 then bit1 else bit2) + 1;
    SplitBit(BigEndian(first), EndOf(next), k, bit1, bit2);
    BlockFits(BigEndian(first), EndOf(next), k);
  }

  /** `bucket_middle`: the exact midpoint, unless the block is a single id. */
  method BucketMiddle(first: Id, next: seq<Id>, ghost k: nat) returns (rc: int, id: Id)
    requires |next| <= 1 && Aligned(BigEndian(first), EndOf(next), k)
    ensures rc == if k == 0 then -1 else 1
    ensures k > 0 ==> BigEndian(id) == BigEndian(first) + Pow2(k - 1)
  {
    hide IdSpace, Pow2, Divides;
    var bit := MiddleBit(first, next, k);
    id := first;
    if bit >= 160 {
      return -1, id;
    }
    var i, j := bit / 8, bit % 8;
    var b := BitOr(first[i], ShiftRight(0x80, j));
    SetBit(first, i, j, k);
    id := first[i := b];
    rc := 1;
  }

  lemma SetBit(first: Id, i: nat, j: nat, k: nat)
    requires j < 8 && i < 20 && k == 160 - (8 * i + j) && Divides(Pow2(k), BigEndian(first))
    ensures var b := BitOr(first[i], ShiftRight(0x80, j));
            b < 256 && BigEndian(first[i := b]) == BigEndian(first) + Pow2(k - 1)
  {
    hide BigEndian, Divides, BitOr, ShiftRight, Pow2;
    var x, p := first[i], Pow2(7 - j);
    Masks(j);
    LowBytes(first, i, 8 - j);
    Doubles(7 - j);
    DividesIs(Pow2(8 - j), x);
    OrDisjoint(x, p, 8 - j);
    Headroom(x, j);
    ReplaceByte(first, i, x + p);
    Pow2Add(8 * (19 - i), 7 - j);
    Commute(p, Pow2(8 * (19 - i)));
  }

  lemma Doubles(e: nat)
    ensures Pow2(e + 1) == 2 * Pow2(e)
  {
  }

  lemma Commute(a: nat, b: nat)
    ensures a * b == b * a
  {
  }

  lemma Headroom(x: Byte, j: nat)
    requires j < 8 && Divides(Pow2(8 - j), x)
    ensures x + Pow2(8 - j) <= 256
  {
    hide Divides, Pow2;
    var p, n := Pow2(8 - j), Pow2(j);
    Width();
    Pow2Add(j, 8 - j);
    var q := AsMultiple(x, p);
    MulOrder(q, n, p);
    MulOrder(n, q + 1, p);
    assert (q + 1) * p == x + p;
  }

  lemma MulOrder(q: nat, n: nat, p: nat)
    requires p > 0
    ensures q * p < n * p <==> q < n
  {
    if q < n {
      MulApart(q, n, p);
    } else if n < q {
      MulApart(n, q, p);
    }
  }

  lemma {:induction false} MulApart(q: nat, n: nat, p: nat)
    requires q < n
    ensures q * p + p <= n * p
    decreases n
  {
    OneMoreTimes(n - 1, p);
    if q < n - 1 { MulApart(q, n - 1, p); }
  }

  lemma OneMoreTimes(q: nat, p: nat)
    ensures (q + 1) * p == q * p + p
  {
  }

  lemma {:induction false} ReplaceByte(s: seq<Byte>, i: nat, c: Byte)
    requires i < |s|
    ensures BigEndian(s[i := c]) == BigEndian(s) + (c - s[i]) * Pow2(8 * (|s| - 1 - i))
    decreases |s|
  {
    var n := |s| - 1;
    var t := s[i := c];
    LastByte(s);
    LastByte(t);
    if i == n {
      assert t[..n] == s[..n] && Pow2(0) == 1;
    } else {
      assert t[..n] == s[..n][i := c];
      ReplaceByte(s[..n], i, c);
      Width();
      Pow2Add(8, 8 * (n - 1 - i));
      ScaleInt(c - s[i], 256, Pow2(8 * (n - 1 - i)));
    }
  }

  lemma ScaleInt(d: int, c: nat, p: nat)
    ensures c * (d * p) == d * (c * p)
  {
  }

  // ------------------------------------------------- bucket_random

  /** The low octets of the values drawn. */
  function LowOctets(rnd: seq<nat>): (r: seq<Byte>)
    ensures |r| == |rnd|
  {
    seq(|rnd|, i requires 0 <= i < |rnd| => rnd[i] % 256)
  }

  /** `bucket_random`, with the values `random()` yields for each byte: whatever
      they are, the id lies in the bucket, at the offset their low k bits spell. */
  method BucketRandom(first: Id, next: seq<Id>, rnd: seq<nat>, ghost k: nat) returns (id: Id)
    requires |next| <= 1 && Aligned(BigEndian(first), EndOf(next), k) && |rnd| == 20
    ensures BigEndian(first) <= BigEndian(id) < EndOf(next)
    ensures BigEndian(id) == BigEndian(first) + BigEndian(LowOctets(rnd)) % Pow2(k)
  {
    hide IdSpace, Pow2, Divides, LowOctets;
    var bit := MiddleBit(first, next, k);
    if bit >= 160 {
      assert Pow2(0) == 1 by { PowZero(); }
      return first;
    }
    var i, j := bit / 8, bit % 8;
    RandomByte(first, i, j, rnd[i], k);
    var b := BitOr(BitAnd(first[i], ShiftRight(0xFF00, j)), BitAnd(rnd[i], ShiftRight(0xFF, j)));
    var head: seq<Byte> := first[..i] + [b];
    id := DrawRest(head, rnd);
    RandomWithin(first, i, j, b, id, k);
    RandomOffset(first, i, j, b, id, rnd, k);
  }

  /** The loop behind the byte in which the block ends: whole random octets. */
  method DrawRest(head: seq<Byte>, rnd: seq<nat>) returns (id: Id)
    requires |head| <= 20 && |rnd| == 20
    ensures id[..|head|] == head && id[|head|..] == LowOctets(rnd)[|head|..]
  {
    hide LowOctets, BitAnd;
    var out, m := head, |head|;
    ghost var low := LowOctets(rnd);
    while m < 20
      invariant |head| <= m <= 20 && out == head + low[|head|..m]
    {
      LowOctet(rnd[m]);
      LowOctetsAt(rnd, m);
      assert low[|head|..m + 1] == low[|head|..m] + [low[m]];
      out := out + [BitAnd(rnd[m], 0xFF)];
      m := m + 1;
    }
    id := out;
  }

  lemma LowOctetsAt(rnd: seq<nat>, m: nat)
    requires m < |rnd|
    ensures LowOctets(rnd)[m] == rnd[m] % 256
  {
  }

  /** The offset of the drawn id: the octets behind byte i, and of byte i the bits
      below the block's. */
  lemma RandomOffset(first: Id, i: nat, j: nat, b: Byte, id: Id, rnd: seq<nat>, k: nat)
    requires j < 8 && i < 20 && k == 160 - (8 * i + j) && Divides(Pow2(k), BigEndian(first)) && |rnd| == 20
    requires id[..i + 1] == first[..i] + [b] && b == first[i] + rnd[i] % Pow2(8 - j)
    requires id[i + 1..] == LowOctets(rnd)[i + 1..]
    ensures BigEndian(id) == BigEndian(first) + BigEndian(LowOctets(rnd)) % Pow2(k)
  {
    hide BigEndian, Divides, Pow2, LowOctets;
    var w, p, low := Pow2(8 * (19 - i)), Pow2(8 - j), LowOctets(rnd);
    LowBytes(first, i, 8 - j);
    Joined(first[..i + 1], first[i + 1..]);
    Joined(id[..i + 1], id[i + 1..]);
    Joined(low[..i + 1], low[i + 1..]);
    assert first == first[..i + 1] + first[i + 1..] && id == id[..i + 1] + id[i + 1..];
    assert low == low[..i + 1] + low[i + 1..];
    ZeroBytes(first[i + 1..]);
    BigEndianBound(low[i + 1..]);
    SamePrefix(first, id, i);
    Pow2Add(8 * (19 - i), 8 - j);
    LastOctet(low, rnd, i, 8 - j);
    ModProduct(BigEndian(low[..i + 1]), w, p, BigEndian(low[i + 1..]));
    Distribute(BigEndian(first[..i + 1]), rnd[i] % p, w);
  }

  lemma Distribute(a: int, b: int, w: int)
    ensures (a + b) * w == a * w + b * w
  {
  }

  lemma ModProduct(a: nat, w: nat, p: nat, t: nat)
    requires t < w && p > 0
    ensures w * p > 0 && (a * w + t) % (w * p) == (a % p) * w + t
  {
    var q, r := a / p, a % p;
    WithinProduct(r, w, p, t);
    assert a == q * p + r;
    Distribute(q * p, r, w);
    assert (q * p) * w == q * (w * p);
    DivUnique(a * w + t, w * p, q, r * w + t);
  }

  lemma WithinProduct(r: nat, w: nat, p: nat, t: nat)
    requires r < p && t < w
    ensures 0 <= r * w + t < w * p
  {
    assert (r + 1) * w <= p * w;
  }

  /** Modulo a power of two up to 256 only the last octet matters. */
  lemma LastOctet(low: seq<Byte>, rnd: seq<nat>, i: nat, e: nat)
    requires i < |rnd| && low == LowOctets(rnd) && e <= 8
    ensures BigEndian(low[..i + 1]) % Pow2(e) == rnd[i] % Pow2(e)
  {
    LowOctetsAt(rnd, i);
    hide LowOctets, Pow2;
    Width();
    Pow2Add(8 - e, e);
    assert low[..i + 1][..i] == low[..i];
    var n, p, c := BigEndian(low[..i]), Pow2(e), Pow2(8 - e);
    MultipleAdded(n, c, p, low[i]);
    MultipleAdded(rnd[i] / 256, c, p, rnd[i] % 256);
    DivModOf(rnd[i]);
  }

  lemma DivModOf(r: nat)
    ensures r == r / 256 * 256 + r % 256
  {
  }

  lemma MultipleAdded(n: nat, c: nat, p: nat, x: nat)
    requires p > 0
    ensures (n * (c * p) + x) % p == x % p
  {
    var q, r := x / p, x % p;
    assert x == q * p + r;
    assert n * (c * p) + q * p == (n * c + q) * p;
    DivUnique(n * (c * p) + x, p, n * c + q, r);
  }

  /** Every id of a block is drawn: by the values that are its own bytes. */
  lemma RandomOnto(first: Id, next: seq<Id>, id: Id, k: nat)
    requires |next| <= 1 && Aligned(BigEndian(first), EndOf(next), k)
    requires BigEndian(first) <= BigEndian(id) < EndOf(next)
    ensures BigEndian(first) + BigEndian(LowOctets(id)) % Pow2(k) == BigEndian(id)
  {
    hide Pow2, BigEndian;
    assert LowOctets(id) == id;
    hide LowOctets;
    var q := AsMultiple(BigEndian(first), Pow2(k));
    var d := BigEndian(id) - BigEndian(first);
    DivUnique(BigEndian(id), Pow2(k), q, d);
  }

  lemma PowZero()
    ensures Pow2(0) == 1
  {
  }

  lemma LowOctet(r: nat)
    ensures 0 <= BitAnd(r, 0xFF) < 256 && BitAnd(r, 0xFF) == r % 256
  {
    Width();
    AndLow(r, 8);
  }

  lemma ResidueBound(r: nat, p: nat)
    requires p > 0
    ensures r % p < p
  {
  }

  lemma RandomByte(first: Id, i: nat, j: nat, r: nat, k: nat)
    requires j < 8 && i < 20 && k == 160 - (8 * i + j) && Divides(Pow2(k), BigEndian(first))
    ensures var b := BitOr(BitAnd(first[i], ShiftRight(0xFF00, j)), BitAnd(r, ShiftRight(0xFF, j)));
            0 <= b < 256 && first[i] <= b < first[i] + Pow2(8 - j) && b == first[i] + r % Pow2(8 - j)
  {
    hide BigEndian, Divides, BitOr, BitAnd, ShiftRight, Pow2;
    var x := first[i];
    LowBytes(first, i, 8 - j);
    Width();
    Masks(j);
    DividesIs(Pow2(8 - j), x);
    AndHighBits(x, ShiftRight(0xFF, j), 8 - j, 8);
    AndLow(r, 8 - j);
    Headroom(x, j);
    ResidueBound(r, Pow2(8 - j));
    OrDisjoint(x, r % Pow2(8 - j), 8 - j);
  }

  lemma RandomWithin(first: Id, i: nat, j: nat, b: Byte, id: Id, k: nat)
    requires j < 8 && i < 20 && k == 160 - (8 * i + j) && Divides(Pow2(k), BigEndian(first))
    requires id[..i + 1] == first[..i] + [b] && first[i] <= b < first[i] + Pow2(8 - j)
    ensures BigEndian(first) <= BigEndian(id) < BigEndian(first) + Pow2(k)
  {
    hide BigEndian, Divides, Pow2;
    var w := Pow2(8 * (19 - i));
    LowBytes(first, i, 8 - j);
    Joined(first[..i + 1], first[i + 1..]);
    Joined(id[..i + 1], id[i + 1..]);
    assert first == first[..i + 1] + first[i + 1..] && id == id[..i + 1] + id[i + 1..];
    ZeroBytes(first[i + 1..]);
    BigEndianBound(id[i + 1..]);
    var n, d := BigEndian(first[..i + 1]), b - first[i];
    SamePrefix(first, id, i);
    Pow2Add(8 * (19 - i), 8 - j);
    WithinBlock(n, d, w, BigEndian(id[i + 1..]), Pow2(8 - j));
  }

  lemma SamePrefix(s: seq<Byte>, t: seq<Byte>, i: nat)
    requires i < |s| && i < |t| && s[..i] == t[..i]
    ensures BigEndian(t[..i + 1]) == BigEndian(s[..i + 1]) + t[i] - s[i]
  {
    assert s[..i + 1][..i] == s[..i] && t[..i + 1][..i] == t[..i];
  }

  lemma WithinBlock(n: nat, d: nat, w: nat, tail: nat, p: nat)
    requires d < p && tail < w
    ensures n * w <= (n + d) * w + tail < n * w + w * p
  {
    assert (n + d) * w == n * w + d * w;
    assert d * w + w <= w * p by { assert (d + 1) * w <= p * w; }
  }
}
