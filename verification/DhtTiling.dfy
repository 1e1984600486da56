/** How the first ids of the buckets cut up the id space. */
module DhtTiling {
  import opened Bytes
  import opened Ids
  import opened DhtBlocks
  import opened Sets

  /** The first id of the following bucket, if there is one. */
  function NextOf(fs: seq<Id>, i: nat): (next: seq<Id>)
    requires i < |fs|
    ensures |next| <= 1
  {
    if i + 1 < |fs| then [fs[i + 1]] else []
  }

  function Lo(fs: seq<Id>, i: nat): nat
    requires i < |fs|
  {
    Key(fs[i])
  }

  function Hi(fs: seq<Id>, i: nat): nat
    requires i < |fs|
  {
    EndOf(NextOf(fs, i))
  }

  /** The i-th bucket covers an aligned block of some power of two of ids. */
  ghost predicate IsBlock(fs: seq<Id>, i: nat)
    requires i < |fs|
  {
    exists k: nat :: Aligned(Lo(fs, i), Hi(fs, i), k)
  }

  /** Aligned power-of-two blocks, end to end from 0 to 2^160. */
  ghost predicate Tiling(fs: seq<Id>)
  {
    && fs != [] && Key(fs[0]) == 0
    && forall i: nat :: i < |fs| ==> IsBlock(fs, i)
  }

  predicate Within(fs: seq<Id>, i: nat, id: Id)
    requires i < |fs|
  {
    Lo(fs, i) <= Key(id) < Hi(fs, i)
  }

  lemma {:induction false} InOrder(fs: seq<Id>, i: nat, j: nat)
    requires Tiling(fs) && i < j < |fs|
    ensures Hi(fs, i) <= Lo(fs, j)
    decreases j
  {
    if i + 1 < j {
      InOrder(fs, i, j - 1);
      assert IsBlock(fs, j - 1);
    }
  }

  /** No id is in two buckets. */
  lemma Unique(fs: seq<Id>, i: nat, j: nat, id: Id)
    requires Tiling(fs) && i < |fs| && j < |fs| && Within(fs, i, id) && Within(fs, j, id)
    ensures i == j
  {
    if i < j { InOrder(fs, i, j); }
    if j < i { InOrder(fs, j, i); }
  }

  // --------------------------------------------- how many buckets there are

  lemma SameSize(lo: nat, hi: nat, k: nat, k': nat)
    requires Aligned(lo, hi, k) && Aligned(lo, hi, k')
    ensures k == k'
  {
    Pow2Order(k, k');
    Pow2Order(k', k);
  }

  /** Only the bucket of our own id is ever split: its size tells how often. */
  predicate OwnSize(fs: seq<Id>, k: nat)
  {
    k >= 3 && |fs| + k == 161
  }

  ghost predicate Counted(fs: seq<Id>, myid: Id)
  {
    forall i: nat, k: nat :: i < |fs| && Within(fs, i, myid) && Aligned(Lo(fs, i), Hi(fs, i), k) ==> OwnSize(fs, k)
  }

  lemma {:induction false} Covered(fs: seq<Id>, id: Id, from: nat) returns (i: nat)
    requires Tiling(fs) && from < |fs| && Lo(fs, from) <= Key(id)
    ensures i < |fs| && Within(fs, i, id)
    decreases |fs| - from
  {
    if Key(id) < Hi(fs, from) {
      i := from;
    } else if from + 1 < |fs| {
      i := Covered(fs, id, from + 1);
    } else {
      IdBound(id);
      assert false;
    }
  }

  /** At most 158 buckets are ever reached. */
  lemma AtMost158(fs: seq<Id>, myid: Id)
    requires Tiling(fs) && Counted(fs, myid)
    ensures |fs| <= 158
  {
    var i := Covered(fs, myid, 0);
    assert IsBlock(fs, i);
    var k: nat :| Aligned(Lo(fs, i), Hi(fs, i), k);
    assert OwnSize(fs, k);
  }

  // ------------------------------------------------------------- splitting

  function Split(fs: seq<Id>, i: nat, mid: Id): seq<Id>
    requires i < |fs|
  {
    fs[..i + 1] + [mid] + fs[i + 1..]
  }

  /** What `split_bucket` makes of the blocks. */
  lemma SplitBlocks(fs: seq<Id>, i: nat, mid: Id)
    requires i < |fs|
    ensures var fs' := Split(fs, i, mid);
            && |fs'| == |fs| + 1
            && (forall j: nat :: j < i ==> Lo(fs', j) == Lo(fs, j) && Hi(fs', j) == Hi(fs, j))
            && Lo(fs', i) == Lo(fs, i) && Hi(fs', i) == Key(mid) && Lo(fs', i + 1) == Key(mid)
               && Hi(fs', i + 1) == Hi(fs, i)
            && (forall j: nat :: i + 1 < j <= |fs| ==> Lo(fs', j) == Lo(fs, j - 1) && Hi(fs', j) == Hi(fs, j - 1))
  {
  }

  lemma SameBlock(fs: seq<Id>, j: nat, fs': seq<Id>, j': nat)
    requires j < |fs| && j' < |fs'| && IsBlock(fs, j) && Lo(fs', j') == Lo(fs, j) && Hi(fs', j') == Hi(fs, j)
    ensures IsBlock(fs', j')
  {
    var k: nat :| Aligned(Lo(fs, j), Hi(fs, j), k);
    assert Aligned(Lo(fs', j'), Hi(fs', j'), k);
  }

  lemma Halves(lo: nat, hi: nat, mid: nat, k: nat)
    requires k > 0 && Aligned(lo, hi, k) && mid == lo + Pow2(k - 1)
    ensures Aligned(lo, mid, k - 1) && Aligned(mid, hi, k - 1)
  {
    DividesLess(1, k - 1, lo);
    DividesSelf(Pow2(k - 1));
    DividesSum(Pow2(k - 1), lo, Pow2(k - 1));
  }

  lemma DividesSelf(p: nat)
    requires p > 0
    ensures Divides(p, p)
  {
    MultipleIs(p, p, 1);
  }

  lemma SplitTiling(fs: seq<Id>, i: nat, mid: Id, k: nat)
    requires Tiling(fs) && i < |fs| && k > 0 && Aligned(Lo(fs, i), Hi(fs, i), k) && Key(mid) == Lo(fs, i) + Pow2(k - 1)
    ensures Tiling(Split(fs, i, mid))
  {
    var fs' := Split(fs, i, mid);
    SplitBlocks(fs, i, mid);
    Halves(Lo(fs, i), Hi(fs, i), Key(mid), k);
    hide Lo, Hi, Aligned, Key, Split;
    forall j: nat | j < |fs'| ensures IsBlock(fs', j) {
      if j < i {
        SameBlock(fs, j, fs', j);
      } else if j > i + 1 {
        SameBlock(fs, j - 1, fs', j);
      } else {
        assert Aligned(Lo(fs', j), Hi(fs', j), k - 1);
      }
    }
    SplitFirst(fs, i, mid);
  }

  lemma SplitFirst(fs: seq<Id>, i: nat, mid: Id)
    requires i < |fs|
    ensures Split(fs, i, mid)[0] == fs[0]
  {
  }

  /** Splitting our own bucket halves its block and adds one bucket. */
  lemma SplitCounted(fs: seq<Id>, i: nat, mid: Id, k: nat, myid: Id)
    requires Tiling(fs) && i < |fs| && k >= 4 && Aligned(Lo(fs, i), Hi(fs, i), k) && Key(mid) == Lo(fs, i) + Pow2(k - 1)
    requires Counted(fs, myid) && Within(fs, i, myid)
    ensures Counted(Split(fs, i, mid), myid)
  {
    var fs' := Split(fs, i, mid);
    SplitBlocks(fs, i, mid);
    SplitTiling(fs, i, mid, k);
    Halves(Lo(fs, i), Hi(fs, i), Key(mid), k);
    assert OwnSize(fs, k);
    forall j: nat, e: nat | j < |fs'| && Within(fs', j, myid) && Aligned(Lo(fs', j), Hi(fs', j), e)
      ensures OwnSize(fs', e) {
      SplitOwner(fs, i, mid, j, myid);
      SameSize(Lo(fs', j), Hi(fs', j), e, k - 1);
    }
  }

  /** An id of the split bucket is in one of the halves. */
  lemma SplitOwner(fs: seq<Id>, i: nat, mid: Id, j: nat, id: Id)
    requires Tiling(fs) && i < |fs| && Within(fs, i, id) && j <= |fs| && Within(Split(fs, i, mid), j, id)
    ensures j == i || j == i + 1
  {
    SplitBlocks(fs, i, mid);
    if j < i {
      Unique(fs, j, i, id);
    } else if j > i + 1 {
      Unique(fs, j - 1, i, id);
    }
  }

  // ------------------------------------------------------ pigeonhole

  lemma {:induction false} Pigeonhole(s: set<nat>, lo: nat, n: nat)
    requires forall x :: x in s ==> lo <= x < lo + n
    ensures |s| <= n
    decreases n
  {
    if n == 0 {
      assert s == {};
    } else {
      var t := s - {lo + n - 1};
      Pigeonhole(t, lo, n - 1);
      assert s <= t + {lo + n - 1};
      SubsetSize(s, t + {lo + n - 1});
    }
  }

  /** Ten ids in one block: it has at least sixteen. */
  lemma RoomForTen(s: set<Id>, fs: seq<Id>, i: nat, k: nat)
    requires i < |fs| && Aligned(Lo(fs, i), Hi(fs, i), k) && |s| >= 10
    requires forall id :: id in s ==> Within(fs, i, id)
    ensures k >= 4
  {
    var keys := set id | id in s :: Key(id);
    KeysSize(s, keys);
    Pigeonhole(keys, Lo(fs, i), Pow2(k));
    assert Pow2(3) == 8;
    Pow2Order(3, k);
  }

  lemma {:induction false} KeysSize(s: set<Id>, keys: set<nat>)
    requires keys == set id | id in s :: Key(id)
    ensures |keys| == |s|
    decreases |s|
  {
    if s != {} {
      var x :| x in s;
      var t, tk := s - {x}, keys - {Key(x)};
      forall k ensures k in tk <==> k in set id | id in t :: Key(id) {
        if k in tk {
          var id :| id in s && Key(id) == k;
          assert id in t;
        }
        if k in set id | id in t :: Key(id) {
          var id :| id in t && Key(id) == k;
          if k == Key(x) { BigEndianInjective(id, x); }
        }
      }
      assert tk == set id | id in t :: Key(id);
      KeysSize(t, tk);
    }
  }
}
