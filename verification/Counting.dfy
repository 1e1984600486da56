/** Counting flagged positions, the measure by which filters and "the first so
    many" are described without recursion. */
module Counting {

  /** The flagged ones among the first i positions, and their number. */
  function Positions(flags: seq<bool>, i: nat): set<int>
    requires i <= |flags|
  {
    set j | 0 <= j < i && flags[j]
  }

  function Count(flags: seq<bool>, i: nat): nat
    requires i <= |flags|
  {
    |Positions(flags, i)|
  }

  /** Position i is one of the first `limit` flagged ones. */
  predicate Among(flags: seq<bool>, limit: nat, i: nat)
  {
    i < |flags| && flags[i] && Count(flags, i) < limit
  }

  /** r lists what s holds at the flagged positions, in order. */
  predicate Picks<T(==)>(r: seq<T>, s: seq<T>, flags: seq<bool>)
    requires |flags| == |s|
  {
    |r| == Count(flags, |s|) && forall i :: 0 <= i < |s| && flags[i] ==>
      Count(flags, i) < |r| && r[Count(flags, i)] == s[i]
  }

  lemma CountNext(flags: seq<bool>, i: nat)
    requires i < |flags|
    ensures Count(flags, i + 1) == Count(flags, i) + if flags[i] then 1 else 0
  {
    var a, b := Positions(flags, i), Positions(flags, i + 1);
    if flags[i] {
      assert b == a + {i};
    } else {
      assert b == a;
    }
  }

  lemma CountNone(flags: seq<bool>)
    ensures Count(flags, 0) == 0
  {
    assert Positions(flags, 0) == {};
  }

  lemma {:induction false} CountCons(b: bool, t: seq<bool>, i: nat)
    requires i <= |t|
    ensures Count([b] + t, i + 1) == (if b then 1 else 0) + Count(t, i)
  {
    hide Count;
    CountNext([b] + t, i);
    if i == 0 {
      CountNone([b] + t);
      CountNone(t);
    } else {
      CountCons(b, t, i - 1);
      CountNext(t, i - 1);
    }
  }

  lemma {:induction false} CountGrows(flags: seq<bool>, i: nat, k: nat)
    requires i <= k <= |flags|
    ensures Count(flags, i) <= Count(flags, k)
    decreases k
  {
    if i < k {
      CountGrows(flags, i, k - 1);
      CountNext(flags, k - 1);
    }
  }

  lemma AmongCons(b: bool, t: seq<bool>, limit: nat, i: nat)
    requires limit > 0
    ensures Among([b] + t, limit, i) <==>
            if i == 0 then b else Among(t, if b then limit - 1 else limit, i - 1)
  {
    hide Count;
    CountNone([b] + t);
    if 0 < i <= |t| { CountCons(b, t, i - 1); }
  }

  lemma PicksNothing<T>(s: seq<T>, flags: seq<bool>)
    requires |flags| == |s| && forall i :: 0 <= i < |s| ==> !flags[i]
    ensures Picks([], s, flags)
  {
    assert Positions(flags, |s|) == {};
  }

  /** One element more in front, kept or not. */
  lemma PicksCons<T>(r: seq<T>, x: T, s: seq<T>, b: bool, flags: seq<bool>)
    requires |flags| == |s| && Picks(r, s, flags)
    ensures Picks(if b then [x] + r else r, [x] + s, [b] + flags)
  {
    hide Count;
    var r', s', f := if b then [x] + r else r, [x] + s, [b] + flags;
    CountNone(f);
    CountCons(b, flags, |s|);
    forall i | 0 <= i < |s'| && f[i] ensures Count(f, i) < |r'| && r'[Count(f, i)] == s'[i] {
      if i > 0 { CountCons(b, flags, i - 1); }
    }
  }

  /** One element more at the end, kept or not. */
  lemma PicksSnoc<T>(r: seq<T>, s: seq<T>, x: T, flags: seq<bool>, b: bool)
    requires |flags| == |s| && Picks(r, s, flags)
    ensures Picks(r + if b then [x] else [], s + [x], flags + [b])
  {
    hide Count;
    var f := flags + [b];
    forall i: nat | i <= |s| ensures Count(f, i) == Count(flags, i) {
      CountPrefix(flags, b, i);
    }
    CountNext(f, |s|);
    assert |s + [x]| == |s| + 1;
  }

  lemma CountPrefix(flags: seq<bool>, b: bool, i: nat)
    requires i <= |flags|
    ensures Count(flags + [b], i) == Count(flags, i)
  {
    assert Positions(flags + [b], i) == Positions(flags, i);
  }

  /** The flags of the first `limit` flagged positions alone. */
  function First(flags: seq<bool>, limit: nat): (r: seq<bool>)
    ensures |r| == |flags|
  {
    seq(|flags|, i requires 0 <= i < |flags| => Among(flags, limit, i))
  }

  lemma FirstCons(b: bool, t: seq<bool>, limit: nat)
    requires limit > 0
    ensures First([b] + t, limit) == [b] + First(t, if b then limit - 1 else limit)
  {
    hide Among;
    forall i | 0 <= i < |t| + 1
      ensures First([b] + t, limit)[i] == ([b] + First(t, if b then limit - 1 else limit))[i]
    {
      AmongCons(b, t, limit, i);
    }
  }

  lemma FirstNone(flags: seq<bool>, i: nat)
    requires i < |flags|
    ensures !First(flags, 0)[i]
  {
  }

  lemma NoneFirst(flags: seq<bool>, limit: nat)
    requires flags == [] || limit == 0
    ensures forall i :: 0 <= i < |flags| ==> !First(flags, limit)[i]
  {
  }
}
