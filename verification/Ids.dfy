/** 20-byte identifiers and `memcmp`. */
module Ids {
  import opened Bytes

  type Id = s: seq<Byte> | |s| == 20 witness seq(20, _ => 0)

  /** The number a byte string spells, most significant byte first. */
  function BigEndian(s: seq<Byte>): nat
  {
    if s == [] then 0 else BigEndian(s[..|s| - 1]) * 256 + s[|s| - 1]
  }

  /** The number an id stands for, by which ids are compared. */
  function Key(id: Id): nat
  {
    BigEndian(id)
  }

  /** Two octets in network order. */
  lemma PortReads(port: nat)
    requires port < 0x1_0000
    ensures BigEndian([port / 256 % 256, port % 256]) == port
  {
    var s: seq<Byte> := [port / 256 % 256, port % 256];
    assert s[..1] == [s[0]] && s[..1][..0] == [];
    assert BigEndian(s[..1]) == s[0];
  }

  /** The first difference decides. */
  lemma {:induction false} FirstDifference(a: seq<Byte>, b: seq<Byte>, i: nat)
    requires |a| == |b| && i < |a| && a[..i] == b[..i] && a[i] < b[i]
    ensures BigEndian(a) < BigEndian(b)
    decreases |a|
  {
    var n := |a| - 1;
    if i == n {
      assert a[..n] == b[..n];
    } else {
      var a', b' := a[..n], b[..n];
      assert a'[..i] == a[..i] && b'[..i] == b[..i];
      FirstDifference(a', b', i);
    }
  }

  /** `memcmp` on equal lengths: an unsigned comparison of the numbers spelled. */
  method MemCmp(a: seq<Byte>, b: seq<Byte>) returns (c: int)
    requires |a| == |b|
    ensures c < 0 <==> BigEndian(a) < BigEndian(b)
    ensures c > 0 <==> BigEndian(a) > BigEndian(b)
    ensures c == 0 <==> a == b
  {
    var i := 0;
    while i < |a| && a[i] == b[i]
      invariant 0 <= i <= |a| && a[..i] == b[..i]
    {
      i := i + 1;
    }
    if i == |a| {
      assert a == a[..i] && b == b[..i];
      return 0;
    }
    if a[i] < b[i] {
      FirstDifference(a, b, i);
    } else {
      FirstDifference(b, a, i);
    }
    var x: int, y: int := a[i], b[i];
    c := x - y;
  }

  lemma {:induction false} BigEndianInjective(a: seq<Byte>, b: seq<Byte>)
    requires |a| == |b| && BigEndian(a) == BigEndian(b)
    ensures a == b
    decreases |a|
  {
    if a != [] {
      var n := |a| - 1;
      BigEndianInjective(a[..n], b[..n]);
      assert a == a[..n] + [a[n]] && b == b[..n] + [b[n]];
    }
  }

  lemma {:induction false} BigEndianBound(s: seq<Byte>)
    ensures BigEndian(s) < Pow2(8 * |s|)
    decreases |s|
  {
    if s == [] {
    } else {
      BigEndianBound(s[..|s| - 1]);
      Pow2Add(8 * (|s| - 1), 8);
      assert Pow2(8) == 256 by { assert Pow2(4) == 16; }
    }
  }

  /** How many ids there are. */
  function IdSpace(): (r: nat)
    ensures r >= 1
  {
    Pow2(160)
  }

  lemma IdBound(id: Id)
    ensures BigEndian(id) < IdSpace()
  {
    BigEndianBound(id);
    hide Pow2;
  }
}
