/** The XOR metric: `xorcmp`, and bounded lists of the ids closest to a target. */
module DhtDistance {
  import opened Bytes
  import opened Ids
  import opened Sets

  function XorBytes(a: seq<Byte>, b: seq<Byte>): (r: seq<Byte>)
    requires |a| == |b|
    ensures |r| == |a|
  {
    seq(|a|, i requires 0 <= i < |a| => Xor(a[i], b[i]))
  }

  /** How far an id is from a target, as a 160-bit number. */
  function Distance(id: Id, target: Id): nat
  {
    BigEndian(XorBytes(id, target))
  }

  /** Different ids are at different distances. */
  lemma DistanceInjective(a: Id, b: Id, target: Id)
    requires Distance(a, target) == Distance(b, target)
    ensures a == b
  {
    var x, y := XorBytes(a, target), XorBytes(b, target);
    BigEndianInjective(x, y);
    forall i | 0 <= i < 20 ensures a[i] == b[i] {
      assert x[i] == Xor(a[i], target[i]) && y[i] == Xor(b[i], target[i]);
      XorCancel(a[i], target[i]);
      XorCancel(b[i], target[i]);
    }
  }

  /** `xorcmp`: which of two ids is closer to ref. */
  method XorCmp(id1: Id, id2: Id, ref: Id) returns (c: int)
    ensures c < 0 <==> Distance(id1, ref) < Distance(id2, ref)
    ensures c > 0 <==> Distance(id1, ref) > Distance(id2, ref)
    ensures c == 0 <==> id1 == id2
  {
    hide Xor, Distance;
    var i := 0;
    while i < 20
      invariant 0 <= i <= 20 && id1[..i] == id2[..i]
    {
      if id1[i] != id2[i] {
        var xor1, xor2 := Xor(id1[i], ref[i]), Xor(id2[i], ref[i]);
        XorCancel(id1[i], ref[i]);
        XorCancel(id2[i], ref[i]);
        if xor1 < xor2 {
          CloserAt(id1, id2, ref, i);
          return -1;
        } else {
          CloserAt(id2, id1, ref, i);
          return 1;
        }
      }
      i := i + 1;
    }
    assert id1 == id1[..20] && id2 == id2[..20];
    c := 0;
  }

  lemma CloserAt(a: Id, b: Id, ref: Id, i: nat)
    requires i < 20 && a[..i] == b[..i] && Xor(a[i], ref[i]) < Xor(b[i], ref[i])
    ensures Distance(a, ref) < Distance(b, ref)
  {
    hide Xor;
    var x, y := XorBytes(a, ref), XorBytes(b, ref);
    forall k | 0 <= k < i ensures x[k] == y[k] {
      assert a[k] == a[..i][k] && b[k] == b[..i][k];
    }
    assert x[..i] == y[..i];
    FirstDifference(x, y, i);
  }

  // ----------------------------------------------- the closest ids

  predicate Increasing(s: seq<Id>, target: Id)
  {
    forall i, j :: 0 <= i < j < |s| ==> Distance(s[i], target) < Distance(s[j], target)
  }

  /** s is the list of the `bound` ids of `offered` closest to the target, nearest
      first; of all of them if there are fewer. */
  predicate IsClosest(s: seq<Id>, offered: set<Id>, target: Id, bound: nat)
  {
    && Increasing(s, target) && |s| <= bound
    && (forall id :: id in s ==> id in offered)
    && (forall id :: id in offered && id !in s ==> |s| == bound && forall k :: 0 <= k < |s| ==>
       Distance(s[k], target) < Distance(id, target))
  }

  function Members(s: seq<Id>): set<Id>
  {
    set id | id in s
  }

  /** The list is determined by what was offered. */
  lemma {:induction false} ClosestUnique(s: seq<Id>, t: seq<Id>, offered: set<Id>, target: Id, bound: nat)
    requires IsClosest(s, offered, target, bound) && IsClosest(t, offered, target, bound)
    ensures s == t
  {
    SameLength(s, t, offered, target, bound);
    SameLength(t, s, offered, target, bound);
    SamePrefixes(s, t, |s|, offered, target, bound);
    assert s[..|s|] == s && t[..|s|] == t;
  }

  lemma IdsIn(s: seq<Id>, target: Id)
    requires Increasing(s, target)
    ensures |Members(s)| == |s|
    decreases |s|
  {
    if s == [] {
      assert Members(s) == {};
    } else {
      var t := s[..|s| - 1];
      IdsIn(t, target);
      var x := s[|s| - 1];
      assert x !in t;
      assert s == t + [x];
      assert Members(s) == Members(t) + {x};
    }
  }

  lemma SameLength(s: seq<Id>, t: seq<Id>, offered: set<Id>, target: Id, bound: nat)
    requires IsClosest(s, offered, target, bound) && IsClosest(t, offered, target, bound)
    ensures |s| <= |t|
  {
    IdsIn(s, target);
    IdsIn(t, target);
    if Members(s) <= Members(t) {
      SubsetSize(Members(s), Members(t));
    } else {
      var x :| x in Members(s) && x !in Members(t);
    }
  }

  lemma {:induction false} SamePrefixes(s: seq<Id>, t: seq<Id>, k: nat, offered: set<Id>, target: Id, bound: nat)
    requires IsClosest(s, offered, target, bound) && IsClosest(t, offered, target, bound) && |s| == |t| && k <= |s|
    ensures s[..k] == t[..k]
    decreases k
  {
    if k > 0 {
      SamePrefixes(s, t, k - 1, offered, target, bound);
      NotCloser(s, t, k - 1, offered, target, bound);
      NotCloser(t, s, k - 1, offered, target, bound);
      DistanceInjective(s[k - 1], t[k - 1], target);
      assert s[..k] == s[..k - 1] + [s[k - 1]] && t[..k] == t[..k - 1] + [t[k - 1]];
    }
  }

  lemma NotCloser(s: seq<Id>, t: seq<Id>, k: nat, offered: set<Id>, target: Id, bound: nat)
    requires IsClosest(s, offered, target, bound) && IsClosest(t, offered, target, bound) && |s| == |t| && k < |s|
    requires s[..k] == t[..k]
    ensures Distance(t[k], target) <= Distance(s[k], target)
  {
    forall j | 0 <= j < k ensures t[j] != s[k] {
      assert t[j] == t[..k][j] && s[..k][j] == s[j];
    }
  }

  // ------------------------------------------------ offering one more

  /** Where an id belongs: everything before i is closer, the rest is farther. */
  predicate Place(s: seq<Id>, id: Id, target: Id, i: nat)
  {
    && i <= |s|
    && (forall k :: 0 <= k < i ==> Distance(s[k], target) < Distance(id, target))
    && (forall k :: i <= k < |s| ==> Distance(id, target) < Distance(s[k], target))
  }

  /** Where the search of either list code stops, if it did not meet the id. */
  lemma PlaceFree(ids: seq<Id>, nid: Id, target: Id, i: nat)
    requires Increasing(ids, target) && i <= |ids|
    requires forall k :: 0 <= k < i ==> Distance(ids[k], target) < Distance(nid, target)
    requires i < |ids| ==> Distance(nid, target) < Distance(ids[i], target)
    ensures Place(ids, nid, target, i) && nid !in ids
  {
    hide Distance;
  }

  function Inserted<T>(s: seq<T>, i: nat, x: T, bound: nat): (r: seq<T>)
    requires i <= |s|
  {
    var t := s[..i] + [x] + s[i..];
    if |t| <= bound then t else t[..bound]
  }

  lemma InsertedAt<T>(s: seq<T>, i: nat, x: T, bound: nat)
    requires i <= |s| <= bound && i < bound
    ensures var r := Inserted(s, i, x, bound);
            && |r| == (if |s| < bound then |s| + 1 else bound) && r[i] == x
            && (forall k :: 0 <= k < i ==> r[k] == s[k]) && (forall k :: i < k < |r| ==> r[k] == s[k - 1])
  {
  }

  /** A new id takes its place and the farthest falls off the end. */
  lemma OfferNew(s: seq<Id>, id: Id, i: nat, offered: set<Id>, target: Id, bound: nat)
    requires IsClosest(s, offered, target, bound) && Place(s, id, target, i) && i < bound
    ensures IsClosest(Inserted(s, i, id, bound), offered + {id}, target, bound)
  {
    var r := Inserted(s, i, id, bound);
    InsertedAt(s, i, id, bound);
    InsertedIncreasing(s, id, i, target, bound);
    Kept(s, i, id, bound);
    forall x | x in offered + {id} && x !in r
      ensures |r| == bound && forall k :: 0 <= k < |r| ==> Distance(r[k], target) < Distance(x, target) {
      Fallen(s, id, i, offered, target, bound, x);
      hide Distance, Inserted;
    }
  }

  lemma InsertedIncreasing(s: seq<Id>, id: Id, i: nat, target: Id, bound: nat)
    requires Increasing(s, target) && |s| <= bound && Place(s, id, target, i) && i < bound
    ensures Increasing(Inserted(s, i, id, bound), target)
  {
    hide Distance;
    InsertedAt(s, i, id, bound);
    hide Inserted;
  }

  lemma Kept<T>(s: seq<T>, i: nat, x: T, bound: nat)
    requires i <= |s| <= bound && i < bound
    ensures var r := Inserted(s, i, x, bound);
            && (forall y :: y in r ==> y == x || y in s) && x in r
            && (forall k :: 0 <= k < |s| && (k < i || k + 1 < |r|) ==> s[k] in r)
  {
    var r := Inserted(s, i, x, bound);
    InsertedAt(s, i, x, bound);
    hide Inserted;
    assert r[i] in r;
    forall k | 0 <= k < |s| && (k < i || k + 1 < |r|) ensures s[k] in r {
      if k < i { assert r[k] in r; } else { assert r[k + 1] in r; }
    }
    forall y | y in r ensures y == x || y in s {
      var k :| 0 <= k < |r| && r[k] == y;
      if k < i { assert s[k] in s; } else if k > i { assert s[k - 1] in s; }
    }
  }

  /** What is not in the new list is farther than all in it. */
  lemma Fallen(s: seq<Id>, id: Id, i: nat, offered: set<Id>, target: Id, bound: nat, x: Id)
    requires IsClosest(s, offered, target, bound) && Place(s, id, target, i) && i < bound
    requires x in offered + {id} && x !in Inserted(s, i, id, bound)
    ensures |Inserted(s, i, id, bound)| == |s| == bound && forall k :: 0 <= k < bound ==>
      Distance(Inserted(s, i, id, bound)[k], target) < Distance(x, target)
  {
    InsertedAt(s, i, id, bound);
    Kept(s, i, id, bound);
    hide Inserted, Distance;
    if x in s {
      var k :| 0 <= k < |s| && s[k] == x;
    } else {
      assert forall k :: 0 <= k < |s| ==> Distance(s[k], target) < Distance(x, target);
    }
  }

  /** A full list whose ids are all closer ignores the offer. */
  lemma OfferFar(s: seq<Id>, id: Id, offered: set<Id>, target: Id, bound: nat)
    requires IsClosest(s, offered, target, bound) && Place(s, id, target, bound)
    ensures IsClosest(s, offered + {id}, target, bound)
  {
  }

  lemma OfferKnown(s: seq<Id>, id: Id, offered: set<Id>, target: Id, bound: nat)
    requires IsClosest(s, offered, target, bound) && id in s
    ensures IsClosest(s, offered + {id}, target, bound) && offered + {id} == offered
  {
  }

  /** Dropping an entry leaves the closest of what remains. */
  lemma DropOne(s: seq<Id>, i: nat, offered: set<Id>, target: Id, bound: nat)
    requires IsClosest(s, offered, target, bound) && i < |s|
    ensures IsClosest(s[..i] + s[i + 1..], Members(s[..i] + s[i + 1..]), target, bound)
  {
  }
}
