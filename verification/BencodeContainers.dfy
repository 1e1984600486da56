/** Dictionaries and lists under construction: benc_dict.c and benc_list.c. */
module BencodeContainers {
  import opened Bytes
  import opened Options
  import opened Bencode

  /** What a `char` holds where it is signed. */
  function Signed(b: Byte): int
  {
    if b >= 128 then b - 256 else b
  }

  /** A `size_t` difference returned as an `int`: its low 32 bits, signed. */
  function Int32(x: int): int
  {
    (x + 0x8000_0000) % 0x1_0000_0000 - 0x8000_0000
  }

  /** Both are two's complement: in range, and the same modulo 2^8 and 2^32. */
  lemma TwosComplement(b: Byte, x: int)
    ensures -128 <= Signed(b) < 128 && Signed(b) % 256 == b
    ensures -0x8000_0000 <= Int32(x) < 0x8000_0000 && Int32(x) % 0x1_0000_0000 == x % 0x1_0000_0000
  {
  }

  /** The order of `benc_bstr_compare`: by signed characters, then by length. */
  predicate Less(a: seq<Byte>, b: seq<Byte>)
  {
    if b == [] then false
    else if a == [] then true
    else if a[0] != b[0] then Signed(a[0]) < Signed(b[0])
    else Less(a[1..], b[1..])
  }

  lemma {:induction false} LessTransitive(a: seq<Byte>, b: seq<Byte>, c: seq<Byte>)
    requires Less(a, b) && Less(b, c)
    ensures Less(a, c)
    decreases |a|
  {
    if a != [] && a[0] == b[0] && b[0] == c[0] { LessTransitive(a[1..], b[1..], c[1..]); }
  }

  lemma {:induction false} LessTotal(a: seq<Byte>, b: seq<Byte>)
    ensures !(Less(a, b) && Less(b, a)) && (a == b <==> !Less(a, b) && !Less(b, a))
    decreases |a|
  {
    if a != [] && b != [] && a[0] == b[0] {
      LessTotal(a[1..], b[1..]);
      assert a == [a[0]] + a[1..] && b == [b[0]] + b[1..];
    }
  }

  /** The first difference decides; of a string and its prefix the prefix is less. */
  lemma {:induction false} LessAt(a: seq<Byte>, b: seq<Byte>, i: nat)
    requires i <= |a| && i <= |b| && a[..i] == b[..i]
    requires i < |a| && i < |b| ==> a[i] != b[i]
    ensures Less(a, b) <==> i < |b| && (i < |a| ==> Signed(a[i]) < Signed(b[i]))
    decreases i
  {
    if i > 0 {
      assert a[0] == a[..i][0] && b[0] == b[..i][0];
      assert a[1..][..i - 1] == a[..i][1..] && b[1..][..i - 1] == b[..i][1..];
      LessAt(a[1..], b[1..], i - 1);
    }
  }

  /** What `benc_bstr_compare` returns. */
  function Cmp(a: seq<Byte>, b: seq<Byte>): int
    decreases |a|
  {
    if a == [] || b == [] then Int32(|a| - |b|)
    else if a[0] != b[0] then Signed(a[0]) - Signed(b[0])
    else Cmp(a[1..], b[1..])
  }

  /** The strings differ where both have a character. */
  predicate Differ(a: seq<Byte>, b: seq<Byte>)
  {
    exists i :: 0 <= i < |a| && i < |b| && a[i] != b[i]
  }

  /** The low 32 bits of x, read as an `int`, have the sign of x. */
  predicate KeepsSign(x: int)
  {
    || x == 0
    || (x > 0 && 0 < x % 0x1_0000_0000 < 0x8000_0000)
    || (x < 0 && x % 0x1_0000_0000 >= 0x8000_0000)
  }

  /** The condition under which the result can be trusted. */
  predicate Comparable(a: seq<Byte>, b: seq<Byte>)
  {
    Differ(a, b) || KeepsSign(|a| - |b|)
  }

  predicate Trusted(d: int, a: seq<Byte>, b: seq<Byte>)
  {
    (d < 0 <==> Less(a, b)) && (d > 0 <==> Less(b, a)) && (d == 0 <==> a == b)
  }

  lemma DifferTail(a: seq<Byte>, b: seq<Byte>)
    requires a != [] && b != [] && a[0] == b[0]
    ensures Differ(a, b) <==> Differ(a[1..], b[1..])
  {
    if i :| 0 <= i < |a| && i < |b| && a[i] != b[i] {
      assert a[1..][i - 1] != b[1..][i - 1];
    }
    if i :| 0 <= i < |a[1..]| && i < |b[1..]| && a[1..][i] != b[1..][i] {
      assert a[i + 1] != b[i + 1];
    }
  }

  lemma {:induction false} CmpCases(a: seq<Byte>, b: seq<Byte>)
    ensures Differ(a, b) ==> Trusted(Cmp(a, b), a, b)
    ensures !Differ(a, b) ==> Cmp(a, b) == Int32(|a| - |b|)
    ensures !Differ(a, b) ==> (Less(a, b) <==> |a| < |b|) && (Less(b, a) <==> |b| < |a|) && (a == b <==> |a| == |b|)
    decreases |a|
  {
    if a != [] && b != [] {
      if a[0] == b[0] {
        CmpCases(a[1..], b[1..]);
        DifferTail(a, b);
        assert a == [a[0]] + a[1..] && b == [b[0]] + b[1..];
      }
    }
  }

  /** The result orders two strings if and only if they are `Comparable`. */
  lemma CompareExact(a: seq<Byte>, b: seq<Byte>)
    ensures Trusted(Cmp(a, b), a, b) <==> Comparable(a, b)
  {
    hide Cmp, Less, Differ;
    CmpCases(a, b);
  }

  /** Strings below 2^31 bytes always are. */
  lemma ShortComparable(a: seq<Byte>, b: seq<Byte>)
    requires |a| < 0x8000_0000 && |b| < 0x8000_0000
    ensures Comparable(a, b)
  {
  }

  /** 2^31 characters come before none, and 2^32 equal none. */
  lemma CompareWraps(a: seq<Byte>, c: seq<Byte>)
    requires |a| == 0x8000_0000 && |c| == 0x1_0000_0000
    ensures Cmp(a, []) < 0 && Less([], a)
    ensures Cmp(c, []) == 0 && c != []
  {
  }

  lemma {:induction false} CmpPrefix(a: seq<Byte>, b: seq<Byte>, i: nat)
    requires i <= |a| && i <= |b| && a[..i] == b[..i]
    ensures Cmp(a, b) == Cmp(a[i..], b[i..])
    decreases i
  {
    if i > 0 {
      assert a[0] == a[..i][0] && b[0] == b[..i][0];
      assert a[1..][..i - 1] == a[..i][1..] && b[1..][..i - 1] == b[..i][1..];
      CmpPrefix(a[1..], b[1..], i - 1);
      assert a[1..][i - 1..] == a[i..] && b[1..][i - 1..] == b[i..];
    }
  }

  /** `benc_bstr_compare`. */
  method Compare(a: seq<Byte>, b: seq<Byte>) returns (d: int)
    ensures d == Cmp(a, b)
    ensures Trusted(d, a, b) <==> Comparable(a, b)
  {
    hide Less, Differ;
    CompareExact(a, b);
    var i := 0;
    while i < (if |a| < |b| then |a| else |b|)
      invariant 0 <= i <= |a| && i <= |b| && a[..i] == b[..i]
    {
      CmpPrefix(a, b, i);
      d := Signed(a[i]) - Signed(b[i]);
      if d != 0 {
        return;
      }
      i := i + 1;
    }
    CmpPrefix(a, b, i);
    d := Int32(|a| - |b|);
  }

  // ---------------------------------------------------- dictionaries

  predicate Ordered(d: seq<Entry>)
  {
    forall i, j :: 0 <= i < j < |d| ==> Less(d[i].key, d[j].key)
  }

  /** The key can be told from, and ordered against, every key of the dictionary. */
  predicate ComparableKeys(d: seq<Entry>, key: seq<Byte>)
  {
    forall i :: 0 <= i < |d| ==> Comparable(key, d[i].key)
  }

  /** Where a walk for an equal key stops: the first entry the comparison calls equal. */
  predicate FirstEqual(d: seq<Entry>, key: seq<Byte>, i: nat)
  {
    i <= |d| && (forall k :: 0 <= k < i ==> Cmp(key, d[k].key) != 0) && (i < |d| ==> Cmp(key, d[i].key) == 0)
  }

  /** Where an insertion stops: the first entry that does not come before the key. */
  predicate FirstNotBelow(d: seq<Entry>, key: seq<Byte>, i: nat)
  {
    i <= |d| && (forall k :: 0 <= k < i ==> Cmp(key, d[k].key) > 0) && (i < |d| ==> Cmp(key, d[i].key) <= 0)
  }

  /** Under comparable keys the walk finds exactly the key itself. */
  lemma FirstEqualIsKey(d: seq<Entry>, key: seq<Byte>, i: nat)
    requires FirstEqual(d, key, i) && ComparableKeys(d, key)
    ensures i < |d| <==> HasKey(d, key)
    ensures i < |d| ==> d[i].key == key
    ensures i < |d| && Ordered(d) ==> forall e :: e in d && e.key == key ==> e == d[i]
    ensures i < |d| && Ordered(d) ==> Ordered(d[..i] + d[i + 1..]) && !HasKey(d[..i] + d[i + 1..], key)
  {
    hide Cmp, Less, Comparable;
    forall k | 0 <= k < |d| ensures Cmp(key, d[k].key) == 0 <==> key == d[k].key {
      CompareExact(key, d[k].key);
    }
    if i < |d| {
      OneOfAKind(d, i);
      if Ordered(d) { RemoveOrdered(d, i); }
    }
  }

  /** Under comparable keys an insertion into an ordered dictionary keeps the
      order, and is refused exactly when the key is there. */
  lemma FirstNotBelowFits(d: seq<Entry>, e: Entry, i: nat)
    requires FirstNotBelow(d, e.key, i) && ComparableKeys(d, e.key) && Ordered(d)
    ensures HasKey(d, e.key) <==> i < |d| && Cmp(e.key, d[i].key) == 0
    ensures !HasKey(d, e.key) ==> Ordered(d[..i] + [e] + d[i..])
  {
    hide Cmp, Less, Comparable;
    forall k | 0 <= k < |d| ensures Trusted(Cmp(e.key, d[k].key), e.key, d[k].key) {
      CompareExact(e.key, d[k].key);
    }
    if i < |d| && Cmp(e.key, d[i].key) == 0 {
      assert d[i].key == e.key;
    } else {
      FitsHere(d, e.key, i);
      InsertOrdered(d, e, i);
    }
  }

  predicate HasKey(d: seq<Entry>, key: seq<Byte>)
  {
    exists i :: 0 <= i < |d| && d[i].key == key
  }

  /** Everything before i is below the key, everything from i on above it. */
  predicate Fits(d: seq<Entry>, key: seq<Byte>, i: nat)
  {
    && i <= |d| && (forall k :: 0 <= k < i ==> Less(d[k].key, key))
    && forall k :: i <= k < |d| ==> Less(key, d[k].key)
  }

  lemma InsertOrdered(d: seq<Entry>, e: Entry, i: nat)
    requires Ordered(d) && Fits(d, e.key, i)
    ensures Ordered(d[..i] + [e] + d[i..]) && !HasKey(d, e.key)
  {
    forall k | 0 <= k < |d| ensures d[k].key != e.key {
      LessTotal(d[k].key, e.key);
    }
  }

  lemma FitsHere(d: seq<Entry>, key: seq<Byte>, i: nat)
    requires Ordered(d) && i <= |d| && forall k :: 0 <= k < i ==> Less(d[k].key, key)
    requires i < |d| ==> Less(key, d[i].key)
    ensures Fits(d, key, i)
  {
    forall k | i < k < |d| ensures Less(key, d[k].key) {
      LessTransitive(key, d[i].key, d[k].key);
    }
  }

  /** A `bobj_t` of type `BENC_DICT`. */
  class DictObject {
    var dict: seq<Entry>

    /** `bobj_dict_new`. */
    constructor ()
      ensures dict == []
    {
      dict := [];
    }

    /** The walk that lookup and removal share. */
    method Find(key: seq<Byte>) returns (i: nat)
      ensures FirstEqual(dict, key, i)
    {
      i := 0;
      while i < |dict|
        invariant i <= |dict| && forall k :: 0 <= k < i ==> Cmp(key, dict[k].key) != 0
      {
        var cmp := Compare(key, dict[i].key);
        if cmp == 0 {
          return;
        }
        i := i + 1;
      }
    }

    /** `bobj_dict_lookup`. */
    method Lookup(key: seq<Byte>) returns (val: Option<Obj>)
      ensures val.None? <==> forall k :: 0 <= k < |dict| ==> Cmp(key, dict[k].key) != 0
      ensures val.Some? ==> exists i :: 0 <= i < |dict| && FirstEqual(dict, key, i) && dict[i].val == val.value
      ensures ComparableKeys(dict, key) ==> (val.None? <==> !HasKey(dict, key))
      ensures ComparableKeys(dict, key) && val.Some? ==> Entry(key, val.value) in dict
      ensures ComparableKeys(dict, key) && val.Some? && Ordered(dict) ==>
                forall e :: e in dict && e.key == key ==> e.val == val.value
    {
      hide Cmp, Less, Comparable;
      var i := Find(key);
      if ComparableKeys(dict, key) {
        FirstEqualIsKey(dict, key, i);
      }
      if i == |dict| {
        return None;
      }
      assert dict[i] == Entry(dict[i].key, dict[i].val);
      val := Some(dict[i].val);
    }

    /** `bobj_dict_insert`: the entry goes where the order wants it, unless the
        key is there already. */
    method Insert(key: seq<Byte>, val: Obj) returns (ok: bool, ghost i: nat)
      modifies this
      ensures FirstNotBelow(old(dict), key, i)
      ensures ok <==> !(i < |old(dict)| && Cmp(key, old(dict)[i].key) == 0)
      ensures dict == if ok then old(dict)[..i] + [Entry(key, val)] + old(dict)[i..] else old(dict)
      ensures Ordered(old(dict)) && ComparableKeys(old(dict), key) ==>
                Ordered(dict) && (ok <==> !HasKey(old(dict), key))
    {
      hide Cmp, Less, Comparable;
      var at := 0;
      ok := true;
      while at < |dict|
        invariant 0 <= at <= |dict| && ok && dict == old(dict) && forall k :: 0 <= k < at ==> Cmp(key, dict[k].key) > 0
      {
        var cmp := Compare(key, dict[at].key);
        if cmp < 0 {
          break;
        } else if cmp == 0 {
          ok := false;
          break;
        }
        at := at + 1;
      }
      i := at;
      if Ordered(dict) && ComparableKeys(dict, key) {
        FirstNotBelowFits(dict, Entry(key, val), i);
      }
      if ok {
        dict := dict[..at] + [Entry(key, val)] + dict[at..];
      }
    }

    /** `bobj_dict_remove`: the entry of this key goes. */
    method Remove(key: seq<Byte>) returns (val: Option<Obj>, ghost i: nat)
      modifies this
      ensures FirstEqual(old(dict), key, i) && (val.Some? <==> i < |old(dict)|)
      ensures val.None? ==> dict == old(dict)
      ensures val.Some? ==> old(dict)[i].val == val.value && dict == old(dict)[..i] + old(dict)[i + 1..]
      ensures ComparableKeys(old(dict), key) ==> (val.None? <==> !HasKey(old(dict), key))
      ensures ComparableKeys(old(dict), key) && val.Some? ==> old(dict)[i].key == key
      ensures ComparableKeys(old(dict), key) && Ordered(old(dict)) ==> Ordered(dict) && !HasKey(dict, key)
    {
      hide Cmp, Less, Comparable;
      var at := Find(key);
      i := at;
      if ComparableKeys(dict, key) {
        FirstEqualIsKey(dict, key, i);
      }
      if at == |dict| {
        return None, i;
      }
      val := Some(dict[at].val);
      dict := dict[..at] + dict[at + 1..];
    }
  }

  lemma OneOfAKind(d: seq<Entry>, i: nat)
    requires i < |d|
    ensures Ordered(d) ==> forall e :: e in d && e.key == d[i].key ==> e == d[i]
  {
    if Ordered(d) {
      forall k | 0 <= k < |d| && k != i ensures d[k].key != d[i].key {
        LessTotal(d[k].key, d[i].key);
      }
    }
  }

  lemma RemoveOrdered(d: seq<Entry>, i: nat)
    requires Ordered(d) && i < |d|
    ensures Ordered(d[..i] + d[i + 1..]) && !HasKey(d[..i] + d[i + 1..], d[i].key)
  {
    forall k | 0 <= k < |d| && k != i ensures d[k].key != d[i].key {
      LessTotal(d[k].key, d[i].key);
    }
  }

  /** An ordered dictionary comes back from its encoding entry for entry, in order. */
  lemma OrderedTrip(m: seq<Byte>, p: nat, d: seq<Entry>)
    requires Ordered(d) && NoEmptyDict(d) && Holds(m, p, Encode(Dict(d)))
    ensures Decode(m, p).Some? && Decode(m, p).value.0.Dict? && Ordered(Decode(m, p).value.0.dict)
    ensures Decode(m, p).value == (Dict(d), p + |Encode(Dict(d))|)
  {
    RoundTrip(m, p, Dict(d));
  }

  // ------------------------------------------------------------- lists

  /** A `bobj_t` of type `BENC_LIST`. */
  class ListObject {
    var list: seq<Obj>

    /** `bobj_list_new`. */
    constructor ()
      ensures list == []
    {
      list := [];
    }

    /** `bobj_list_push`: at the head. */
    method Push(elem: Obj)
      modifies this
      ensures list == [elem] + old(list)
    {
      list := [elem] + list;
    }

    /** `bobj_list_pop`: the last one pushed. */
    method Pop() returns (elem: Option<Obj>)
      modifies this
      ensures elem.None? <==> old(list) == []
      ensures if elem.None? then list == [] else old(list) == [elem.value] + list
    {
      if list == [] {
        return None;
      }
      elem := Some(list[0]);
      list := list[1..];
    }
  }

  function Reversed(s: seq<Obj>): seq<Obj>
  {
    seq(|s|, k requires 0 <= k < |s| => s[|s| - 1 - k])
  }

  /** Elements are popped in the opposite order of their pushes, and what was in
      the list before is then on top again. */
  method PushThenPop(o: ListObject, elems: seq<Obj>) returns (popped: seq<Obj>)
    modifies o
    ensures popped == Reversed(elems) && o.list == old(o.list)
  {
    for k := 0 to |elems|
      invariant o.list == Reversed(elems[..k]) + old(o.list)
    {
      assert Reversed(elems[..k + 1]) == [elems[k]] + Reversed(elems[..k]);
      o.Push(elems[k]);
    }
    assert elems[..|elems|] == elems;
    popped := [];
    for k := 0 to |elems|
      invariant |popped| == k && popped + o.list == Reversed(elems) + old(o.list)
    {
      ghost var l := o.list;
      var e := o.Pop();
      assert popped + l == popped + [e.value] + o.list;
      popped := popped + [e.value];
    }
    assert popped == (popped + o.list)[..|elems|] && o.list == (popped + o.list)[|elems|..];
  }
}
