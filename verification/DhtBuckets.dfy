/** The operations on a bucket list: searching, splitting, learning about nodes
    and expiring them. */
module DhtBuckets {
  import opened Bytes
  import opened Counting
  import opened Ids
  import opened Options
  import opened DhtBlocks
  import opened DhtTiling
  import opened DhtTable

  // --------------------------------------------- distinct ids, regrouped

  function IdSet(ns: seq<Node>): set<Id>
  {
    set n | n in ns :: n.id
  }

  lemma DistinctHead(n: Node, t: seq<Node>)
    ensures DistinctIds([n] + t) <==> n.id !in IdSet(t) && DistinctIds(t)
  {
    var ns := [n] + t;
    if DistinctIds(ns) {
      DistinctTail(n, t);
    }
    if n.id !in IdSet(t) {
      assert forall k :: 0 <= k < |t| ==> t[k].id in IdSet(t);
    }
  }

  lemma DistinctTail(n: Node, t: seq<Node>)
    requires DistinctIds([n] + t)
    ensures n.id !in IdSet(t) && DistinctIds(t)
  {
    var ns := [n] + t;
    forall k | 0 <= k < |t| ensures t[k] == ns[k + 1] && t[k].id != n.id {
      assert ns[0].id != ns[k + 1].id;
    }
  }

  lemma IdSetHead(n: Node, t: seq<Node>)
    ensures IdSet([n] + t) == IdSet(t) + {n.id}
  {
  }

  lemma {:induction false} DistinctSize(ns: seq<Node>)
    ensures |IdSet(ns)| <= |ns| && (DistinctIds(ns) <==> |IdSet(ns)| == |ns|)
    decreases |ns|
  {
    if ns == [] {
      assert IdSet(ns) == {};
    } else {
      var n, t := ns[0], ns[1..];
      DistinctSize(t);
      DistinctHead(n, t);
      IdSetHead(n, t);
      hide DistinctIds, IdSet;
      assert ns == [n] + t;
      if n.id in IdSet(t) { assert IdSet(t) + {n.id} == IdSet(t); }
    }
  }

  /** Reordering keeps ids distinct. */
  lemma Reordered(a: seq<Node>, b: seq<Node>)
    requires multiset(a) == multiset(b) && DistinctIds(a)
    ensures DistinctIds(b) && |a| == |b|
  {
    assert |multiset(a)| == |a| && |multiset(b)| == |b|;
    forall n ensures n in a <==> n in b {
      assert n in a <==> n in multiset(a);
      assert n in b <==> n in multiset(b);
    }
    assert IdSet(a) == IdSet(b);
    DistinctSize(a);
    DistinctSize(b);
  }

  lemma DistinctParts(a: seq<Node>, b: seq<Node>)
    requires DistinctIds(a + b)
    ensures DistinctIds(a) && DistinctIds(b)
  {
    var s := a + b;
    assert forall k :: 0 <= k < |a| ==> a[k] == s[k];
    assert forall k :: 0 <= k < |b| ==> b[k] == s[|a| + k];
  }

  // ------------------------------------------------------- a split table

  /** The list with bucket i cut into a lower and an upper half. */
  function CutIn(bs: seq<Bucket>, i: nat, low: Bucket, high: Bucket): seq<Bucket>
    requires i < |bs|
  {
    bs[..i] + [low, high] + bs[i + 1..]
  }

  lemma CutFirsts(bs: seq<Bucket>, i: nat, low: Bucket, high: Bucket)
    requires i < |bs| && low.first == bs[i].first
    ensures Firsts(CutIn(bs, i, low, high)) == Split(Firsts(bs), i, high.first)
  {
  }

  lemma CutAt(bs: seq<Bucket>, i: nat, low: Bucket, high: Bucket)
    requires i < |bs|
    ensures var c := CutIn(bs, i, low, high);
            && |c| == |bs| + 1 && c[i] == low && c[i + 1] == high
            && (forall j: nat :: j < i ==> c[j] == bs[j]) && (forall j: nat :: i + 1 < j <= |bs| ==> c[j] == bs[j - 1])
  {
  }

  lemma CutSound(bs: seq<Bucket>, i: nat, low: Bucket, high: Bucket, k: nat, myid: Id, v4: bool)
    requires Sound(bs, myid, v4) && i < |bs| && low.first == bs[i].first
    requires k > 0 && Aligned(Lo(Firsts(bs), i), Hi(Firsts(bs), i), k)
      && Key(high.first) == Lo(Firsts(bs), i) + Pow2(k - 1)
    requires GoodBucket(low, Lo(Firsts(bs), i), Key(high.first), myid, v4)
    requires GoodBucket(high, Key(high.first), Hi(Firsts(bs), i), myid, v4)
    ensures Sound(CutIn(bs, i, low, high), myid, v4)
  {
    var fs, c := Firsts(bs), CutIn(bs, i, low, high);
    CutFirsts(bs, i, low, high);
    CutAt(bs, i, low, high);
    SplitBlocks(fs, i, high.first);
    SplitTiling(fs, i, high.first, k);
    hide Tiling, Split, Lo, Hi, GoodBucket, Firsts;
    forall j: nat | j < |c| ensures GoodBucket(c[j], Lo(Firsts(c), j), Hi(Firsts(c), j), myid, v4) {
      if j < i {
        assert GoodBucket(bs[j], Lo(fs, j), Hi(fs, j), myid, v4);
      } else if j > i + 1 {
        assert GoodBucket(bs[j - 1], Lo(fs, j - 1), Hi(fs, j - 1), myid, v4);
      }
    }
  }

  lemma CutDenotes(bs: seq<Bucket>, i: nat, low: Bucket, high: Bucket, m: map<Id, Node>)
    requires i < |bs| && Denotes(bs, m) && forall n :: n in bs[i].nodes <==> n in low.nodes || n in high.nodes
    ensures Denotes(CutIn(bs, i, low, high), m)
  {
    var c := CutIn(bs, i, low, high);
    CutAt(bs, i, low, high);
    forall n ensures InTable(c, n) <==> InTable(bs, n) {
      if InTable(c, n) {
        var j: nat :| j < |c| && n in c[j].nodes;
        if j < i {
          assert n in bs[j].nodes;
        } else if j > i + 1 {
          assert n in bs[j - 1].nodes;
        } else {
          assert n in bs[i].nodes;
        }
      }
      if InTable(bs, n) {
        var j: nat :| j < |bs| && n in bs[j].nodes;
        if j < i {
          assert n in c[j].nodes;
        } else if j > i {
          assert n in c[j + 1].nodes;
        } else {
          assert n in c[i].nodes || n in c[i + 1].nodes;
        }
      }
    }
  }

  /** Where `split_bucket` stands: the bucket's nodes are in the two halves, each
      in its range, or still waiting. */
  ghost predicate Halving(was: Bucket, low: Bucket, high: Bucket, rest: seq<Node>, lo: nat, mid: nat, hi: nat,
                          myid: Id, v4: bool)
  {
    && low.first == was.first && Key(high.first) == mid && low.af == was.af && high.af == was.af
    && low.count == |low.nodes| && high.count == |high.nodes|
    && AllFit(low.nodes, lo, mid, myid, v4) && AllFit(high.nodes, mid, hi, myid, v4)
    && multiset(low.nodes) + multiset(high.nodes) + multiset(rest) == multiset(was.nodes)
  }

  lemma Halved(was: Bucket, low: Bucket, high: Bucket, lo: nat, mid: nat, hi: nat, myid: Id, v4: bool)
    requires GoodBucket(was, lo, hi, myid, v4) && Halving(was, low, high, [], lo, mid, hi, myid, v4)
    ensures GoodBucket(low, lo, mid, myid, v4) && GoodBucket(high, mid, hi, myid, v4)
    ensures forall n :: n in was.nodes <==> n in low.nodes || n in high.nodes
  {
    var both := low.nodes + high.nodes;
    assert multiset(both) == multiset(low.nodes) + multiset(high.nodes);
    assert multiset(both) == multiset(was.nodes);
    Reordered(was.nodes, both);
    DistinctParts(low.nodes, high.nodes);
    forall n ensures n in was.nodes <==> n in low.nodes || n in high.nodes {
      assert n in was.nodes <==> n in multiset(was.nodes);
      assert n in both <==> n in multiset(both);
    }
  }

  /** One waiting node goes to the half its id falls into. */
  lemma HalvingStep(was: Bucket, low: Bucket, high: Bucket, rest: seq<Node>, lo: nat, mid: nat, hi: nat, myid: Id,
                    v4: bool)
    requires rest != [] && Halving(was, low, high, rest, lo, mid, hi, myid, v4) && AllFit(was.nodes, lo, hi, myid, v4)
    ensures lo <= Key(rest[0].id) < hi
    ensures Key(rest[0].id) < mid ==> Halving(was, Grown(low, rest[0]), high, rest[1..], lo, mid, hi, myid, v4)
    ensures Key(rest[0].id) >= mid ==> Halving(was, low, Grown(high, rest[0]), rest[1..], lo, mid, hi, myid, v4)
  {
    var n, t := rest[0], rest[1..];
    assert rest == [n] + t;
    assert n in was.nodes by {
      assert n in multiset(rest);
      assert n in multiset(was.nodes);
    }
    assert Fits(n, lo, hi, myid, v4);
    Counted1(n, low.nodes);
    Counted1(n, high.nodes);
    Counted1(n, t);
    if Key(n.id) < mid {
      forall x | x in [n] + low.nodes ensures Fits(x, lo, mid, myid, v4) {
      }
    } else {
      forall x | x in [n] + high.nodes ensures Fits(x, mid, hi, myid, v4) {
      }
    }
  }

  lemma Counted1(n: Node, t: seq<Node>)
    ensures multiset([n] + t) == multiset{n} + multiset(t)
  {
  }

  function Grown(b: Bucket, n: Node): Bucket
  {
    b.(nodes := [n] + b.nodes, count := b.count + 1)
  }

  // -------------------------------------------------- node state changes

  /** `node_good`. */
  predicate NodeGood(n: Node, now: int)
  {
    n.pinged <= 2 && n.replyTime >= now - 7200 && n.time >= now - 900
  }

  predicate KnownBad(n: Node, now: int)
  {
    n.pinged >= 3 && n.pingedTime < now - 15
  }

  predicate SomeBad(ns: seq<Node>, now: int)
  {
    exists k :: 0 <= k < |ns| && KnownBad(ns[k], now)
  }

  predicate AllGood(ns: seq<Node>, now: int)
  {
    forall k :: 0 <= k < |ns| ==> NodeGood(ns[k], now)
  }

  /** Bucket i, into whose block the id falls, cannot take it: it is full, no node
      of it is known to be bad, and it is not to be split. */
  ghost predicate FullAt(bs: seq<Bucket>, i: nat, id: Id, myid: Id, now: int)
  {
    && i < |bs| && Within(Firsts(bs), i, id)
    && |bs[i].nodes| >= 8 && !SomeBad(bs[i].nodes, now)
    && (Within(Firsts(bs), i, myid) ==> |bs| > 1 && !AllGood(bs[i].nodes, now))
  }

  ghost predicate NoRoom(bs: seq<Bucket>, id: Id, myid: Id, now: int)
  {
    exists i: nat :: i < |bs| && FullAt(bs, i, id, myid, now)
  }

  lemma NoRoomAt(bs: seq<Bucket>, b: nat, id: Id, myid: Id, now: int)
    requires Tiling(Firsts(bs)) && b < |bs| && Within(Firsts(bs), b, id)
    ensures NoRoom(bs, id, myid, now) <==> FullAt(bs, b, id, myid, now)
  {
    hide Tiling, Within;
    if i: nat :| FullAt(bs, i, id, myid, now) {
      Unique(Firsts(bs), i, b, id);
    }
  }

  /** Room depends on no other field of a bucket than its range and its nodes. */
  lemma NoRoomTouched(bs: seq<Bucket>, b: nat, bk: Bucket, id: Id, myid: Id, now: int)
    requires b < |bs| && bk.first == bs[b].first && bk.nodes == bs[b].nodes
    ensures NoRoom(bs[b := bk], id, myid, now) <==> NoRoom(bs, id, myid, now)
  {
    FirstsKept(bs, b, bk);
    hide Firsts, Within, SomeBad, AllGood;
    var bs' := bs[b := bk];
    forall i: nat ensures FullAt(bs', i, id, myid, now) <==> FullAt(bs, i, id, myid, now) {
    }
  }

  /** A ping makes a dubious node neither good nor known to be bad. */
  lemma PingedStill(ns: seq<Node>, j: nat, now: int)
    requires j < |ns| && !NodeGood(ns[j], now)
    ensures !AllGood(ns, now) && !AllGood(ns[j := Pinged(ns[j], now)], now)
    ensures SomeBad(ns[j := Pinged(ns[j], now)], now) ==> SomeBad(ns, now)
  {
    var ns' := ns[j := Pinged(ns[j], now)];
    assert !NodeGood(ns'[j], now) && !KnownBad(ns'[j], now);
  }

  /** The address `send_cached_ping` pings, if there is one. */
  function CachedPing(b: Bucket): seq<Addr>
  {
    if b.cached.family == 0 then [] else [b.cached]
  }

  /** The bucket of this id counts as refreshed now. */
  ghost predicate TimeSet(bs: seq<Bucket>, id: Id, now: int)
  {
    exists i: nat :: i < |bs| && Within(Firsts(bs), i, id) && bs[i].time == now
  }

  /** The id falls into our own bucket. */
  ghost predicate NearUs(bs: seq<Bucket>, id: Id, myid: Id)
  {
    exists i: nat :: i < |bs| && Within(Firsts(bs), i, id) && Within(Firsts(bs), i, myid)
  }

  lemma NearUsAt(bs: seq<Bucket>, b: nat, id: Id, myid: Id)
    requires Tiling(Firsts(bs)) && b < |bs| && Within(Firsts(bs), b, id)
    ensures NearUs(bs, id, myid) <==> Within(Firsts(bs), b, myid)
  {
    hide Tiling, Within;
    if i: nat :| i < |bs| && Within(Firsts(bs), i, id) && Within(Firsts(bs), i, myid) {
      Unique(Firsts(bs), i, b, id);
    }
  }

  /** Dubious, and not pinged in the last 15 seconds. */
  predicate Due(n: Node, now: int)
  {
    !NodeGood(n, now) && n.pingedTime < now - 15
  }

  /** The first node that is due for a ping, or the end of the list. */
  predicate FirstDue(ns: seq<Node>, j: nat, now: int)
  {
    j <= |ns| && (forall k :: 0 <= k < j ==> !Due(ns[k], now)) && (j < |ns| ==> Due(ns[j], now))
  }

  /** What the ping of a full bucket's first due node does to the table and the
      pings sent. */
  predicate PingedFirst(ns: seq<Node>, j: nat, m: map<Id, Node>, m': map<Id, Node>, sent: seq<Addr>, sent': seq<Addr>,
                        now: int)
  {
    && FirstDue(ns, j, now)
    && m' == (if j < |ns| then m[ns[j].id := Pinged(ns[j], now)] else m)
    && sent' == sent + (if j < |ns| then [ns[j].ss] else [])
  }

  /** A refused newcomer: the first due node of its bucket is pinged, and its
      address is kept if it sent a message or none is kept yet. */
  ghost predicate Refused(b: Bucket, b': Bucket, m: map<Id, Node>, m': map<Id, Node>, sent: seq<Addr>,
                          sent': seq<Addr>, sa: Addr, confirm: int, now: int)
  {
    && b'.cached == (if confirm != 0 || b.cached.family == 0 then sa else b.cached)
    && exists j: nat :: PingedFirst(b.nodes, j, m, m', sent, sent', now)
  }

  function Fresh(id: Id, sa: Addr, confirm: int, now: int): Node
  {
    Node(id, sa, if confirm != 0 then now else 0, if confirm >= 2 then now else 0, 0, 0)
  }

  function Refreshed(n: Node, sa: Addr, confirm: int, now: int): Node
  {
    if confirm != 0 || n.time < now - 15 * 60 then
      var t := n.(ss := sa, time := if confirm != 0 then now else n.time);
      if confirm >= 2 then t.(replyTime := now, pinged := 0, pingedTime := 0) else t
    else n
  }

  function Pinged(n: Node, now: int): Node
  {
    n.(pinged := n.pinged + 1, pingedTime := now)
  }

  /** A node that replies is good from then on for 15 minutes, whatever it was
      before, and cannot be known to be bad until it is pinged three times. */
  lemma ReplyMakesGood(n: Node, sa: Addr, now: int, later: int)
    requires later >= now
    ensures var r := Refreshed(n, sa, 2, now);
            r.id == n.id && r.ss == sa && (NodeGood(r, later) <==> later <= now + 900) && !KnownBad(r, later)
    ensures var f := Fresh(n.id, sa, 2, now);
            f.id == n.id && f.ss == sa && (NodeGood(f, later) <==> later <= now + 900) && !KnownBad(f, later)
  {
  }

  /** Messages that are no replies keep a node good, but no longer than two hours
      after its last reply. */
  lemma MessagesKeepGood(n: Node, sa: Addr, now: int, later: int)
    requires later >= now && NodeGood(n, now)
    ensures var r := Refreshed(n, sa, 1, now);
            NodeGood(r, later) <==> later <= now + 900 && later <= n.replyTime + 7200
  {
  }

  /** Three pings without a reply make a node bad, 15 seconds after the last. */
  lemma SilenceMakesBad(n: Node, t1: int, t2: int, t3: int, later: int)
    requires n.pinged == 0
    ensures var p := Pinged(Pinged(Pinged(n, t1), t2), t3);
            p.id == n.id && p.ss == n.ss && !NodeGood(p, later) && (KnownBad(p, later) <==> later > t3 + 15)
    ensures !KnownBad(Pinged(Pinged(n, t1), t2), later)
    ensures NodeGood(Pinged(Pinged(n, t1), t2), later) <==> NodeGood(n, later)
  {
  }

  /** Nodes were at most pinged, and none twice. */
  ghost predicate OnlyPinged(m: map<Id, Node>, m': map<Id, Node>, now: int)
  {
    && m'.Keys == m.Keys
    && forall x :: x in m ==> m'[x] == m[x] || (m'[x] == Pinged(m[x], now) && m[x].pingedTime < now - 15)
  }

  /** The table gained `newcomer`, possibly in the place of one known-bad node. */
  ghost predicate Admitted(m: map<Id, Node>, m': map<Id, Node>, newcomer: Node, now: int)
  {
    && newcomer.id in m' && m'[newcomer.id] == newcomer
    && (forall x :: x in m' && x != newcomer.id ==>
       x in m && (m'[x] == m[x] || (m'[x] == Pinged(m[x], now) && m[x].pingedTime < now - 15)))
    && (forall x :: x in m && x !in m' ==> KnownBad(m[x], now))
    && (forall x, y :: x in m && y in m && x !in m' && y !in m' ==> x == y)
  }

  lemma PingsAdd(a: map<Id, Node>, b: map<Id, Node>, c: map<Id, Node>, now: int)
    requires OnlyPinged(a, b, now)
    ensures OnlyPinged(b, c, now) ==> OnlyPinged(a, c, now)
    ensures forall n :: Admitted(b, c, n, now) ==> Admitted(a, c, n, now)
  {
  }

  const ZERO_ID: Id := [0, 0, 0, 0, 0, 0, 0, 0, 0, 0, 0, 0, 0, 0, 0, 0, 0, 0, 0, 0]

  function EmptyBucket(v4: bool): Bucket
  {
    Bucket(if v4 then AF_INET else AF_INET6, ZERO_ID, 0, 0, [], UNSET)
  }

  lemma InitialTable(myid: Id, v4: bool)
    ensures Table([EmptyBucket(v4)], map[], myid, v4)
  {
    var bs := [EmptyBucket(v4)];
    var fs := Firsts(bs);
    ZeroBytes(ZERO_ID);
    WholeSpace(fs);
    assert GoodBucket(bs[0], Lo(fs, 0), Hi(fs, 0), myid, v4);
    assert Denotes(bs, map[]);
    OneCounted(fs, myid);
    hide Denotes, GoodBucket, Tiling, Counted;
  }

  lemma OneCounted(fs: seq<Id>, myid: Id)
    requires |fs| == 1 && Aligned(Lo(fs, 0), Hi(fs, 0), 160)
    ensures Counted(fs, myid)
  {
    hide Lo, Hi, Within, Aligned;
    forall i: nat, k: nat | i < |fs| && Within(fs, i, myid) && Aligned(Lo(fs, i), Hi(fs, i), k) ensures OwnSize(fs, k) {
      SameSize(Lo(fs, i), Hi(fs, i), k, 160);
    }
  }

  lemma WholeSpace(fs: seq<Id>)
    requires |fs| == 1 && Key(fs[0]) == 0
    ensures Tiling(fs) && Aligned(Lo(fs, 0), Hi(fs, 0), 160)
  {
    hide Pow2;
    MultipleIs(0, Pow2(160), 0);
    assert Aligned(Lo(fs, 0), Hi(fs, 0), 160);
  }

  /** The pieces of a table invariant that the search for a bucket uses. */
  lemma TableTiling(bs: seq<Bucket>, m: map<Id, Node>, myid: Id, v4: bool)
    requires Table(bs, m, myid, v4)
    ensures Tiling(Firsts(bs)) && |Firsts(bs)| == |bs| <= 158
  {
    AtMost158(Firsts(bs), myid);
  }

  /** One of `buckets` and `buckets6`. */
  class BucketList {
    const v4: bool
    const myid: Id
    var list: seq<Bucket>
    var growTime: int
    var sent: seq<Addr>
    ghost var contents: map<Id, Node>

    ghost predicate Valid()
      reads this
    {
      Table(list, contents, myid, v4)
    }

    /** The allocation in `dht_init`. */
    constructor (v4: bool, myid: Id, now: int)
      ensures Valid() && contents == map[] && this.v4 == v4 && this.myid == myid
    {
      this.v4, this.myid := v4, myid;
      list, growTime, sent := [EmptyBucket(v4)], now, [];
      contents := map[];
      InitialTable(myid, v4);
    }

    /** `find_bucket`. */
    method FindBucket(id: Id) returns (i: nat)
      requires Tiling(Firsts(list))
      ensures i < |list| && Within(Firsts(list), i, id)
    {
      i := 0;
      ghost var fs := Firsts(list);
      IdBound(id);
      while true
        invariant i < |list| && Lo(fs, i) <= Key(id)
        decreases |list| - i
      {
        if i + 1 == |list| {
          return;
        }
        var c := MemCmp(id, list[i + 1].first);
        if c < 0 {
          return;
        }
        i := i + 1;
      }
    }

    /** `in_bucket`. */
    method InBucket(id: Id, i: nat) returns (yes: bool)
      requires i < |list|
      ensures yes <==> Within(Firsts(list), i, id)
    {
      IdBound(id);
      var c := MemCmp(list[i].first, id);
      yes := c <= 0;
      if yes && i + 1 < |list| {
        c := MemCmp(id, list[i + 1].first);
        yes := c < 0;
      }
    }

    /** The walk along one bucket's nodes that `find_node` and `new_node` share. */
    method IndexOf(id: Id, i: nat) returns (j: int)
      requires Valid() && i < |list| && Within(Firsts(list), i, id)
      ensures id !in contents ==> j == -1
      ensures id in contents ==>
        0 <= j < |list[i].nodes| && list[i].nodes[j].id == id && list[i].nodes[j] == contents[id]
    {
      hide Table;
      j := 0;
      while j < |list[i].nodes|
        invariant 0 <= j <= |list[i].nodes|
        invariant forall k :: 0 <= k < j ==> list[i].nodes[k].id != id
      {
        var c := MemCmp(list[i].nodes[j].id, id);
        if c == 0 {
          BucketOf(list, i, list[i].nodes[j], contents, myid, v4);
          return;
        }
        j := j + 1;
      }
      if id in contents {
        MapKey(list, contents, id, myid, v4);
        BucketOf(list, i, contents[id], contents, myid, v4);
      }
      j := -1;
    }

    /** `find_node`: found exactly when the id is anywhere in this list. */
    method FindNode(id: Id) returns (n: Option<Node>)
      requires Valid()
      ensures n == if id in contents then Some(contents[id]) else None
    {
      TableTiling(list, contents, myid, v4);
      hide Table;
      var i := FindBucket(id);
      var j := IndexOf(id, i);
      n := if j < 0 then None else Some(list[i].nodes[j]);
    }

    /** `insert_node`. */
    method InsertNode(node: Node) returns (ghost i: nat)
      requires Tiling(Firsts(list))
      modifies this`list
      ensures i < |old(list)| && Within(Firsts(old(list)), i, node.id)
      ensures list == old(list)[i := Grown(old(list)[i], node)]
    {
      var b := FindBucket(node.id);
      list := list[b := list[b].(nodes := [node] + list[b].nodes, count := list[b].count + 1)];
      i := b;
    }

    /** `send_cached_ping`: the cached address is pinged and forgotten. */
    method SendCachedPing(i: nat)
      requires i < |list|
      modifies this`list, this`sent
      ensures list == old(list)[i := old(list)[i].(cached := old(list)[i].cached.(family := 0))]
      ensures sent == old(sent) + CachedPing(old(list)[i])
    {
      if list[i].cached.family == 0 {
        assert list[i].(cached := list[i].cached.(family := 0)) == list[i];
        return;
      }
      sent := sent + [list[i].cached];
      list := list[i := list[i].(cached := list[i].cached.(family := 0))];
    }

    /** `split_bucket`: the midpoint of the block becomes the first id of a new
        bucket, and every node stays in the table. */
    method SplitBucket(i: nat, ghost k: nat) returns (ok: bool)
      requires Valid() && i < |list| && Aligned(Lo(Firsts(list), i), Hi(Firsts(list), i), k)
      modifies this`list, this`sent
      ensures ok <==> k > 0
      ensures !ok ==> list == old(list)
      ensures ok ==> Sound(list, myid, v4) && Denotes(list, contents)
      ensures ok ==> |list| == |old(list)| + 1 && list[..i] == old(list)[..i] && list[i + 2..] == old(list)[i + 1..]
      ensures ok ==> |list[i].nodes| + |list[i + 1].nodes| == |old(list)[i].nodes|
      ensures ok ==> Key(list[i + 1].first) == Lo(Firsts(old(list)), i) + Pow2(k - 1)
      ensures k >= 4 && Within(Firsts(old(list)), i, myid) ==> Valid()
    {
      hide Table, Sound, Denotes, Tiling, Aligned, Firsts, Lo, Hi, Within, Halving, GoodBucket, CutIn, Split;
      ghost var was := list;
      var next := if i + 1 < |list| then [list[i + 1].first] else [];
      NextIs(list, i);
      var rc, mid := BucketMiddle(list[i].first, next, k);
      if rc < 0 {
        return false;
      }
      SendCachedPing(i);
      ghost var b := list[i];
      var nodes := list[i].nodes;
      list := list[..i] + [list[i].(nodes := [], count := 0), Bucket(list[i].af, mid, 0, list[i].time, [], UNSET)]
        + list[i + 1..];
      SplitStart(was, i, b, mid, k, contents, myid, v4);
      CutMade(was, i, b, list[i], list[i + 1]);
      while nodes != []
        invariant |list| == |was| + 1 && list == CutIn(was, i, list[i], list[i + 1])
        invariant SplitState(was, i, b, list[i], list[i + 1], nodes, mid, myid, v4)
        decreases |nodes|
      {
        ghost var l := list;
        SplitTiles(was, i, b, l[i], l[i + 1], nodes, mid, myid, v4);
        var n := nodes[0];
        ghost var j := InsertNode(n);
        SplitStep(was, i, b, l, nodes, mid, j, myid, v4);
        nodes := nodes[1..];
      }
      SplitDone(was, i, b, list, mid, k, contents, myid, v4);
      ok := true;
    }

    // ----------------------------------------------------- new_node

    /** A node already known is brought up to date. */
    method Refresh(i: nat, j: nat, sa: Addr, confirm: int, now: int) returns (n: Node)
      requires Valid() && i < |list| && j < |list[i].nodes| && (sa.family == AF_INET <==> v4)
      modifies this`list, this`contents
      ensures Valid() && old(list)[i].nodes[j].id in old(contents)
      ensures n == Refreshed(old(list)[i].nodes[j], sa, confirm, now) && contents == old(contents)[n.id := n]
      ensures |list| == |old(list)| && Firsts(list) == Firsts(old(list)) && list[i].time == old(list)[i].time
    {
      hide Table, Firsts, Within;
      n := list[i].nodes[j];
      if confirm != 0 || n.time < now - 15 * 60 {
        n := n.(ss := sa);
        if confirm != 0 {
          n := n.(time := now);
        }
        if confirm >= 2 {
          n := n.(replyTime := now, pinged := 0, pingedTime := 0);
        }
      }
      Overwritten(contents, n.id, n);
      ListFamily(list, i, j, contents, myid, v4);
      Rewrite(i, j, n);
    }

    /** The node list of a bucket with one entry overwritten: a node gives way to
        another whose id is its own or new. */
    method Rewrite(i: nat, j: nat, n: Node)
      requires Valid() && i < |list| && j < |list[i].nodes| && (n.ss.family == AF_INET <==> v4)
      requires n.id == list[i].nodes[j].id || (n.id !in contents && n.id != myid && Within(Firsts(list), i, n.id))
      modifies this`list, this`contents
      ensures Valid() && list == old(list)[i := old(list)[i].(nodes := old(list)[i].nodes[j := n])]
      ensures var e := old(list)[i].nodes[j].id;
              && e in old(contents) && old(contents)[e] == old(list)[i].nodes[j]
              && contents == (old(contents) - {e})[n.id := n]
      ensures Firsts(list) == Firsts(old(list))
    {
      hide Table, Firsts, Within, Fits;
      RewriteFits(list, i, j, n, contents, myid, v4);
      Swapped(list, i, j, n, contents, myid, v4);
      FirstsKept(list, i, list[i].(nodes := list[i].nodes[j := n]));
      ghost var e := list[i].nodes[j].id;
      list := list[i := list[i].(nodes := list[i].nodes[j := n])];
      contents := (contents - {e})[n.id := n];
    }

    /** The first known-bad node of the bucket, if any, makes room. */
    method ReplaceBad(i: nat, id: Id, sa: Addr, confirm: int, now: int) returns (r: Option<Node>)
      requires Valid() && i < |list| && Within(Firsts(list), i, id) && id !in contents && id != myid
        && (sa.family == AF_INET <==> v4)
      modifies this`list, this`contents
      ensures Valid() && |list| == |old(list)|
      ensures r.None? ==> list == old(list) && contents == old(contents)
      ensures r.Some? ==> r.value == Fresh(id, sa, confirm, now) && Admitted(old(contents), contents, r.value, now)
      ensures r.Some? <==> SomeBad(old(list)[i].nodes, now)
      ensures Firsts(list) == Firsts(old(list)) && list[i].time == old(list)[i].time
    {
      hide Table, Firsts, Within;
      var j := 0;
      while j < |list[i].nodes|
        invariant 0 <= j <= |list[i].nodes|
        invariant forall k :: 0 <= k < j ==> !KnownBad(list[i].nodes[k], now)
      {
        var n := list[i].nodes[j];
        if n.pinged >= 3 && n.pingedTime < now - 15 {
          n := Node(id, sa, if confirm != 0 then now else 0, if confirm >= 2 then now else 0, 0, 0);
          Rewrite(i, j, n);
          return Some(n);
        }
        j := j + 1;
      }
      r := None;
    }

    /** A full bucket: the first dubious node not pinged lately is pinged. */
    method PingDubious(i: nat, now: int) returns (dubious: bool, ghost due: nat)
      requires Valid() && i < |list|
      modifies this`list, this`contents, this`sent
      ensures Valid() && |list| == |old(list)| && Firsts(list) == Firsts(old(list))
      ensures |list[i].nodes| == |old(list)[i].nodes| && list[i].count == old(list)[i].count
        && list[i].af == old(list)[i].af
      ensures OnlyPinged(old(contents), contents, now)
      ensures dubious <==> !AllGood(old(list)[i].nodes, now)
      ensures dubious <==> !AllGood(list[i].nodes, now)
      ensures SomeBad(list[i].nodes, now) ==> SomeBad(old(list)[i].nodes, now)
      ensures PingedFirst(old(list)[i].nodes, due, old(contents), contents, old(sent), sent, now)
      ensures list[i].cached == old(list)[i].cached && list[i].time == old(list)[i].time
    {
      hide Table, Firsts, Within;
      dubious := false;
      var j := 0;
      while j < |list[i].nodes|
        invariant list == old(list) && contents == old(contents) && Valid() && 0 <= j <= |list[i].nodes|
        invariant sent == old(sent) && forall k :: 0 <= k < j ==> !Due(list[i].nodes[k], now)
        invariant !dubious ==> forall k :: 0 <= k < j ==> NodeGood(list[i].nodes[k], now)
        invariant dubious ==> !AllGood(list[i].nodes, now)
      {
        var n := list[i].nodes[j];
        if !NodeGood(n, now) {
          dubious := true;
          PingedStill(list[i].nodes, j, now);
          if n.pingedTime < now - 15 {
            sent := sent + [n.ss];
            ListFamily(list, i, j, contents, myid, v4);
            Overwritten(contents, n.id, Pinged(n, now));
            Rewrite(i, j, n.(pinged := n.pinged + 1, pingedTime := now));
            return dubious, j;
          }
        }
        j := j + 1;
      }
      due := j;
    }

    /** A node in front of the others. */
    method Prepend(i: nat, n: Node)
      requires Valid() && i < |list| && list[i].count < 8 && Within(Firsts(list), i, n.id)
      requires n.id !in contents && n.id != myid && (n.ss.family == AF_INET <==> v4)
      modifies this`list, this`contents
      ensures Valid() && contents == old(contents)[n.id := n]
      ensures list == old(list)[i := Grown(old(list)[i], n)] && Firsts(list) == Firsts(old(list))
    {
      hide Table, Firsts, Within, Fits;
      FirstsKept(list, i, Grown(list[i], n));
      WithinFits(Firsts(list), i, n, myid, v4);
      Prepended(list, i, n, contents, myid, v4);
      list := list[i := list[i].(nodes := [n] + list[i].nodes, count := list[i].count + 1)];
      contents := contents[n.id := n];
    }

    /** Fields of a bucket other than its nodes. */
    method Touch(i: nat, b: Bucket)
      requires Valid() && i < |list| && b.first == list[i].first && b.af == list[i].af && b.count == list[i].count
        && b.nodes == list[i].nodes
      modifies this`list
      ensures Valid() && list == old(list)[i := b] && Firsts(list) == Firsts(old(list))
    {
      Touched(list, i, b, contents, myid, v4);
      FirstsKept(list, i, b);
      hide Table;
      list := list[i := b];
    }

    /** What happens to a full bucket: dubious nodes are pinged, and either it is
        to be split or the newcomer's address is kept for later. */
    method Full(i: nat, mybucket: bool, sa: Addr, confirm: int, now: int) returns (split: bool)
      requires Valid() && i < |list|
      modifies this`list, this`contents, this`sent
      ensures Valid() && |list| == |old(list)| && Firsts(list) == Firsts(old(list))
        && list[i].count == old(list)[i].count
      ensures split ==> mybucket && (|list| == 1 || AllGood(old(list)[i].nodes, now))
      ensures !split && mybucket ==> |list| > 1 && !AllGood(list[i].nodes, now)
      ensures |list[i].nodes| == |old(list)[i].nodes|
      ensures SomeBad(list[i].nodes, now) ==> SomeBad(old(list)[i].nodes, now)
      ensures OnlyPinged(old(contents), contents, now)
      ensures !split ==> Refused(old(list)[i], list[i], old(contents), contents, old(sent), sent, sa, confirm, now)
      ensures list[i].time == old(list)[i].time
    {
      hide Table, Firsts, Within, OnlyPinged, SomeBad, AllGood, PingedFirst;
      BucketParts(list, i, contents, myid, v4);
      var dubious, due := PingDubious(i, now);
      split := false;
      if mybucket {
        if !dubious {
          split := true;
        } else if list[i].af == AF_INET && |list| == 1 {
          split := true;
        } else if list[i].af == AF_INET6 && |list| == 1 {
          split := true;
        }
      }
      if !split && (confirm != 0 || list[i].cached.family == 0) {
        Touch(i, list[i].(cached := sa));
      }
    }

    /** `new_node`: the outcome in terms of the map the table stands for. A full
        bucket holding our own id can always be split and its block halves, so
        the recursion ends. */
    method NewNode(id: Id, sa: Addr, confirm: int, now: int) returns (r: Option<Node>)
      requires Valid() && (sa.family == AF_INET <==> v4)
      modifies this
      ensures Valid()
      ensures id == myid || IsMartian(sa) ==> r.None? && list == old(list) && contents == old(contents)
      ensures id != myid && !IsMartian(sa) && id in old(contents) ==>
        r == Some(Refreshed(old(contents)[id], sa, confirm, now))
      ensures id in old(contents) && r.Some? ==> contents == old(contents)[id := r.value]
      ensures r.Some? ==> r.value.id == id
      ensures r.Some? && confirm >= 2 ==>
        r.value.ss == sa && NodeGood(r.value, now) && forall later :: later >= now ==> !KnownBad(r.value, later)
      ensures r.Some? && confirm == 1 ==> r.value.ss == sa && r.value.time == now
      ensures r.Some? && confirm == 1 && id in old(contents) ==>
        var was := old(contents)[id];
        r.value.pinged == was.pinged && r.value.pingedTime == was.pingedTime && r.value.replyTime == was.replyTime
      ensures r.Some? && confirm == 0 && id in old(contents) ==>
        if old(contents)[id].time >= now - 900 then contents == old(contents)
        else r.value == old(contents)[id].(ss := sa)
      ensures r.Some? && id !in old(contents) ==> r.value.ss == sa && r.value.pinged == 0 && r.value.pingedTime == 0
      ensures r.Some? && id !in old(contents) && confirm < 2 ==>
        r.value.replyTime == 0 && (confirm == 0 ==> r.value.time == 0)
      ensures id !in old(contents) && r.Some? ==>
        r.value == Fresh(id, sa, confirm, now) && Admitted(old(contents), contents, r.value, now)
      ensures r.None? ==> OnlyPinged(old(contents), contents, now)
      ensures id != myid && !IsMartian(sa) && id !in old(contents) && r.None? ==> NoRoom(list, id, myid, now)
      ensures id !in old(contents) && NoRoom(old(list), id, myid, now) ==> r.None?
      ensures id != myid && !IsMartian(sa) && confirm == 2 ==> TimeSet(list, id, now)
      ensures growTime ==
        if id != myid && !IsMartian(sa) && id !in old(contents) && NearUs(old(list), id, myid) then now
        else old(growTime)
      ensures id != myid && !IsMartian(sa) && id !in old(contents) && NoRoom(old(list), id, myid, now) ==>
        exists b: nat :: b < |old(list)| && b < |list| && Within(Firsts(old(list)), b, id)
          && Refused(old(list)[b], list[b], old(contents), contents, old(sent), sent, sa, confirm, now)
      decreases 160 - |list|, 1
    {
      hide Table, Firsts, Within, Admitted, IsMartian, NoRoom, PingedFirst, NearUs;
      TableTiling(list, contents, myid, v4);
      var b := FindBucket(id);
      NearUsAt(list, b, id, myid);
      var c := MemCmp(id, myid);
      if c == 0 {
        return None;
      }
      if IsMartian(sa) {
        return None;
      }
      var mybucket := InBucket(myid, b);
      if confirm == 2 {
        NoRoomTouched(list, b, list[b].(time := now), id, myid, now);
        Touch(b, list[b].(time := now));
      }
      var j := IndexOf(id, b);
      if j >= 0 {
        KeyOf(list, contents, id, myid, v4);
        var n := Refresh(b, j, sa, confirm, now);
        return Some(n);
      }
      r := NewcomerAt(b, mybucket, id, sa, confirm, now);
    }

    /** The rest of `new_node`, for an id the table does not hold. */
    method NewcomerAt(b: nat, mybucket: bool, id: Id, sa: Addr, confirm: int, now: int) returns (r: Option<Node>)
      requires Valid() && (sa.family == AF_INET <==> v4) && id != myid && id !in contents && !IsMartian(sa)
      requires b < |list| && Within(Firsts(list), b, id) && (mybucket <==> Within(Firsts(list), b, myid))
      modifies this
      ensures Valid()
      ensures r.Some? ==> r.value == Fresh(id, sa, confirm, now) && Admitted(old(contents), contents, r.value, now)
      ensures r.None? ==> OnlyPinged(old(contents), contents, now)
      ensures r.None? ==> NoRoom(list, id, myid, now)
      ensures NoRoom(old(list), id, myid, now) ==> r.None?
      ensures confirm == 2 && old(list)[b].time == now ==> TimeSet(list, id, now)
      ensures growTime == if mybucket then now else old(growTime)
      ensures NoRoom(old(list), id, myid, now) ==>
        b < |list| && Refused(old(list)[b], list[b], old(contents), contents, old(sent), sent, sa, confirm, now)
      decreases 160 - |list|, 0
    {
      hide Table, Firsts, Within, Admitted, IsMartian, NoRoom, SomeBad, AllGood, Refused;
      TableTiling(list, contents, myid, v4);
      BucketParts(list, b, contents, myid, v4);
      NoRoomAt(list, b, id, myid, now);
      if mybucket {
        growTime := now;
      }
      r := ReplaceBad(b, id, sa, confirm, now);
      if r.Some? {
        return;
      }
      if list[b].count >= 8 {
        ghost var was := contents;
        var split := Full(b, mybucket, sa, confirm, now);
        TableTiling(list, contents, myid, v4);
        if !split {
          NoRoomAt(list, b, id, myid, now);
          return None;
        }
        ghost var k := RoomToSplit(list, b, id, contents, myid, v4);
        var ok := SplitBucket(b, k);
        ghost var pinged := contents;
        r := NewNode(id, sa, confirm, now);
        PingsAdd(was, pinged, contents, now);
        return;
      }
      var n := Node(id, sa, if confirm != 0 then now else 0, if confirm >= 2 then now else 0, 0, 0);
      JustAdded(contents, n, now);
      Prepend(b, n);
      r := Some(n);
    }

    /** `find_node` and `pinged`, as every request to a node marks it. */
    method MarkPinged(id: Id, now: int)
      requires Valid()
      modifies this`list, this`contents, this`sent
      ensures Valid()
      ensures contents
        == if id in old(contents) then old(contents)[id := Pinged(old(contents)[id], now)] else old(contents)
      ensures id !in old(contents) || old(contents)[id].pinged + 1 < 3 ==> sent == old(sent)
      ensures id in old(contents) && old(contents)[id].pinged + 1 >= 3 ==>
                exists i: nat :: i < |old(list)| && Within(Firsts(old(list)), i, id)
                  && sent == old(sent) + CachedPing(old(list)[i])
    {
      hide Table, Firsts, Within;
      TableTiling(list, contents, myid, v4);
      var i := FindBucket(id);
      var j := IndexOf(id, i);
      if j < 0 {
        return;
      }
      var n := list[i].nodes[j];
      ListFamily(list, i, j, contents, myid, v4);
      Overwritten(contents, id, n.(pinged := n.pinged + 1, pingedTime := now));
      Rewrite(i, j, n.(pinged := n.pinged + 1, pingedTime := now));
      if n.pinged + 1 >= 3 {
        ghost var l := list;
        SendCachedPing(i);
        Touched(l, i, list[i], contents, myid, v4);
      }
    }

    // ------------------------------------------------ expire_buckets

    /** The two loops of `expire_buckets` over one bucket's nodes. */
    method Prune(i: nat) returns (changed: bool)
      requires i < |list| && list[i].count == |list[i].nodes|
      modifies this`list
      ensures |list| == |old(list)|
      ensures list == old(list)[i := old(list)[i].(nodes := list[i].nodes, count := |list[i].nodes|)]
      ensures list[i].nodes == Live(old(list)[i].nodes) && (changed <==> |list[i].nodes| < |old(list)[i].nodes|)
    {
      hide Live;
      ghost var was := list[i].nodes;
      changed := false;
      while list[i].nodes != [] && list[i].nodes[0].pinged >= 4
        invariant |list| == |old(list)|
        invariant list == old(list)[i := old(list)[i].(nodes := list[i].nodes, count := |list[i].nodes|)]
        invariant Live(list[i].nodes) == Live(was) && |list[i].nodes| <= |was| && (changed <==> |list[i].nodes| < |was|)
        decreases |list[i].nodes|
      {
        LiveDrop(list[i].nodes, 0);
        assert list[i].nodes[..0] + list[i].nodes[1..] == list[i].nodes[1..];
        list := list[i := list[i].(nodes := list[i].nodes[1..], count := list[i].count - 1)];
        changed := true;
      }
      var p := 0;
      while p < |list[i].nodes|
        invariant |list| == |old(list)|
        invariant list == old(list)[i := old(list)[i].(nodes := list[i].nodes, count := |list[i].nodes|)]
        invariant Live(list[i].nodes) == Live(was) && |list[i].nodes| <= |was| && (changed <==> |list[i].nodes| < |was|)
        invariant 0 <= p <= |list[i].nodes|
        invariant forall k :: 0 <= k <= p && k < |list[i].nodes| ==> list[i].nodes[k].pinged < 4
        decreases |list[i].nodes| - p
      {
        if p + 1 < |list[i].nodes| && list[i].nodes[p + 1].pinged >= 4 {
          var ns := list[i].nodes;
          LiveDrop(ns, p + 1);
          list := list[i := list[i].(nodes := ns[..p + 1] + ns[p + 2..], count := list[i].count - 1)];
          changed := true;
        } else {
          p := p + 1;
        }
      }
      AllLive(list[i].nodes);
    }

    /** `expire_buckets`: exactly the nodes pinged four times or more go. */
    method ExpireBuckets()
      requires Valid()
      modifies this`list, this`contents, this`sent
      ensures Valid() && Firsts(list) == Firsts(old(list))
      ensures contents == map x | x in old(contents) && old(contents)[x].pinged < 4 :: old(contents)[x]
      ensures forall i :: 0 <= i < |list| ==> list[i].nodes == Live(old(list)[i].nodes)
    {
      hide Table, Firsts;
      var i := 0;
      ghost var was, m := list, contents;
      while i < |list|
        invariant 0 <= i <= |list| == |was| && Valid() && Firsts(list) == Firsts(was)
        invariant forall x :: x in contents ==> x in m && contents[x] == m[x]
        invariant forall x :: x in m && x !in contents ==> m[x].pinged >= 4
        invariant forall k :: 0 <= k < i ==> list[k].nodes == Live(was[k].nodes)
        invariant forall k :: i <= k < |list| ==> list[k] == was[k]
      {
        BucketParts(list, i, contents, myid, v4);
        ghost var b, l := list[i], list;
        var changed := Prune(i);
        PrunedTable(l, i, list[i], contents, myid, v4);
        contents := Pruned(contents, l, i);
        if changed {
          ghost var pruned := list[i];
          SendCachedPing(i);
          Touched(l[i := pruned], i, list[i], contents, myid, v4);
        }
        assert list == l[i := list[i]];
        FirstsKept(l, i, list[i]);
        i := i + 1;
      }
      NoneExpired(was, list, contents, myid, v4);
    }
  }

  /** The nodes `expire_buckets` keeps, in their order. */
  function Live(ns: seq<Node>): seq<Node>
  {
    if ns == [] then [] else (if ns[0].pinged < 4 then [ns[0]] else []) + Live(ns[1..])
  }

  lemma {:induction false} LiveDrop(ns: seq<Node>, k: nat)
    requires k < |ns| && ns[k].pinged >= 4
    ensures Live(ns[..k] + ns[k + 1..]) == Live(ns)
    decreases k
  {
    if k == 0 {
      assert ns[..0] + ns[1..] == ns[1..];
    } else {
      var t := ns[1..];
      LiveDrop(t, k - 1);
      assert (ns[..k] + ns[k + 1..])[1..] == t[..k - 1] + t[k..];
    }
  }

  lemma {:induction false} AllLive(ns: seq<Node>)
    requires forall k :: 0 <= k < |ns| ==> ns[k].pinged < 4
    ensures Live(ns) == ns
  {
    if ns != [] { AllLive(ns[1..]); }
  }

  lemma {:induction false} LiveMembers(ns: seq<Node>)
    ensures |Live(ns)| <= |ns|
    ensures forall n :: n in Live(ns) <==> n in ns && n.pinged < 4
    ensures DistinctIds(ns) ==> DistinctIds(Live(ns))
  {
    if ns != [] {
      var n, t := ns[0], ns[1..];
      LiveMembers(t);
      assert ns == [n] + t;
      DistinctHead(n, t);
      DistinctHead(n, Live(t));
      hide DistinctIds;
      assert IdSet(Live(t)) <= IdSet(t);
    }
  }

  /** Which nodes were pinged fewer than four times. */
  function StayFlags(ns: seq<Node>): (f: seq<bool>)
    ensures |f| == |ns|
  {
    seq(|ns|, i requires 0 <= i < |ns| => ns[i].pinged < 4)
  }

  /** Exactly these are kept, in their order. */
  lemma {:induction false} LiveCounts(ns: seq<Node>)
    ensures Picks(Live(ns), ns, StayFlags(ns))
    decreases ns
  {
    hide Picks;
    if ns == [] {
      PicksNothing(ns, StayFlags(ns));
    } else {
      var n, t := ns[0], ns[1..];
      LiveCounts(t);
      assert ns == [n] + t && StayFlags(ns) == [n.pinged < 4] + StayFlags(t);
      assert [] + Live(t) == Live(t);
      PicksCons(Live(t), n, t, n.pinged < 4, StayFlags(t));
    }
  }

  ghost function Pruned(m: map<Id, Node>, bs: seq<Bucket>, i: nat): map<Id, Node>
    requires i < |bs|
  {
    map x | x in m && !(Within(Firsts(bs), i, x) && m[x].pinged >= 4) :: m[x]
  }

  lemma PrunedTable(bs: seq<Bucket>, i: nat, b: Bucket, m: map<Id, Node>, myid: Id, v4: bool)
    requires Table(bs, m, myid, v4) && i < |bs| && b == bs[i].(nodes := Live(bs[i].nodes), count := |Live(bs[i].nodes)|)
    ensures Table(bs[i := b], Pruned(m, bs, i), myid, v4)
  {
    hide Table, Denotes, Sound, Within, Fits, DistinctIds;
    BucketParts(bs, i, m, myid, v4);
    LiveMembers(bs[i].nodes);
    forall x: Node | Within(Firsts(bs), i, x.id)
      ensures x in b.nodes <==> x.id in Pruned(m, bs, i) && Pruned(m, bs, i)[x.id] == x {
      BucketOf(bs, i, x, m, myid, v4);
    }
    forall id | id in Pruned(m, bs, i) ensures Pruned(m, bs, i)[id].id == id {
      MapKey(bs, m, id, myid, v4);
    }
    Rewritten(bs, i, b, m, Pruned(m, bs, i), myid, v4);
  }

  lemma NoneExpired(was: seq<Bucket>, bs: seq<Bucket>, m: map<Id, Node>, myid: Id, v4: bool)
    requires Table(bs, m, myid, v4) && |was| == |bs| && forall k :: 0 <= k < |bs| ==> bs[k].nodes == Live(was[k].nodes)
    ensures forall x :: x in m ==> m[x].pinged < 4
  {
    forall x | x in m ensures m[x].pinged < 4 {
      MapKey(bs, m, x, myid, v4);
      assert InTable(bs, m[x]);
      var k: nat :| k < |bs| && m[x] in bs[k].nodes;
      LiveMembers(was[k].nodes);
    }
  }

  lemma KeyOf(bs: seq<Bucket>, m: map<Id, Node>, id: Id, myid: Id, v4: bool)
    requires Table(bs, m, myid, v4)
    ensures id in m ==> m[id].id == id
  {
  }

  lemma JustAdded(m: map<Id, Node>, n: Node, now: int)
    requires n.id !in m
    ensures Admitted(m, m[n.id := n], n, now)
  {
  }

  /** A full bucket covering our own id and the newcomer's has room to be split. */
  lemma RoomToSplit(bs: seq<Bucket>, i: nat, id: Id, m: map<Id, Node>, myid: Id, v4: bool) returns (k: nat)
    requires Table(bs, m, myid, v4) && i < |bs| && bs[i].count >= 8
    requires Within(Firsts(bs), i, id) && Within(Firsts(bs), i, myid) && id != myid && id !in m
    ensures k >= 4 && Aligned(Lo(Firsts(bs), i), Hi(Firsts(bs), i), k)
  {
    hide Table, Within, Aligned, Lo, Hi, GoodBucket, DistinctIds, AllFit, IdSet;
    BucketParts(bs, i, m, myid, v4);
    DistinctSize(bs[i].nodes);
    forall n | n in bs[i].nodes ensures n.id != id && n.id != myid && Within(Firsts(bs), i, n.id) {
      NodeFacts(bs, i, n, m, myid, v4);
    }
    k := BlockSize(bs, i, m, myid, v4);
    RoomForTen(TenIds(bs[i].nodes, id, myid), Firsts(bs), i, k) by {
      TenWithin(bs, i, id, myid);
    }
  }

  lemma NodeFacts(bs: seq<Bucket>, i: nat, n: Node, m: map<Id, Node>, myid: Id, v4: bool)
    requires Table(bs, m, myid, v4) && i < |bs| && n in bs[i].nodes
    ensures n.id in m && n.id != myid && Within(Firsts(bs), i, n.id)
  {
    BucketParts(bs, i, m, myid, v4);
    assert Fits(n, Lo(Firsts(bs), i), Hi(Firsts(bs), i), myid, v4) && InTable(bs, n);
  }

  lemma BlockSize(bs: seq<Bucket>, i: nat, m: map<Id, Node>, myid: Id, v4: bool) returns (k: nat)
    requires Table(bs, m, myid, v4) && i < |bs|
    ensures Aligned(Lo(Firsts(bs), i), Hi(Firsts(bs), i), k)
  {
    assert IsBlock(Firsts(bs), i);
    k :| Aligned(Lo(Firsts(bs), i), Hi(Firsts(bs), i), k);
  }

  function TenIds(ns: seq<Node>, id: Id, myid: Id): set<Id>
  {
    IdSet(ns) + {id, myid}
  }

  lemma TenWithin(bs: seq<Bucket>, i: nat, id: Id, myid: Id)
    requires i < |bs| && Within(Firsts(bs), i, id) && Within(Firsts(bs), i, myid) && id != myid
    requires forall n :: n in bs[i].nodes ==> n.id != id && n.id != myid && Within(Firsts(bs), i, n.id)
    ensures |TenIds(bs[i].nodes, id, myid)| == |IdSet(bs[i].nodes)| + 2
    ensures forall x :: x in TenIds(bs[i].nodes, id, myid) ==> Within(Firsts(bs), i, x)
  {
    var s := IdSet(bs[i].nodes);
    assert id !in s && myid !in s && s + {id, myid} == s + {id} + {myid};
  }

  lemma Overwritten(m: map<Id, Node>, e: Id, n: Node)
    ensures (m - {e})[e := n] == m[e := n]
  {
  }

  lemma RewriteFits(bs: seq<Bucket>, i: nat, j: nat, n: Node, m: map<Id, Node>, myid: Id, v4: bool)
    requires Table(bs, m, myid, v4) && i < |bs| && j < |bs[i].nodes| && (n.ss.family == AF_INET <==> v4)
    requires n.id == bs[i].nodes[j].id || (n.id !in m && n.id != myid && Within(Firsts(bs), i, n.id))
    ensures Fits(n, Lo(Firsts(bs), i), Hi(Firsts(bs), i), myid, v4)
  {
    BucketParts(bs, i, m, myid, v4);
    assert bs[i].nodes[j] in bs[i].nodes;
  }

  lemma ListFamily(bs: seq<Bucket>, i: nat, j: nat, m: map<Id, Node>, myid: Id, v4: bool)
    requires Table(bs, m, myid, v4) && i < |bs| && j < |bs[i].nodes|
    ensures bs[i].nodes[j].ss.family == AF_INET <==> v4
  {
    BucketParts(bs, i, m, myid, v4);
    assert bs[i].nodes[j] in bs[i].nodes;
  }

  lemma WithinFits(fs: seq<Id>, i: nat, n: Node, myid: Id, v4: bool)
    requires i < |fs| && Within(fs, i, n.id) && n.id != myid && (n.ss.family == AF_INET <==> v4)
    ensures Fits(n, Lo(fs, i), Hi(fs, i), myid, v4)
  {
  }

  lemma NextIs(bs: seq<Bucket>, i: nat)
    requires i < |bs|
    ensures var next := if i + 1 < |bs| then [bs[i + 1].first] else [];
            BigEndian(bs[i].first) == Lo(Firsts(bs), i) == Key(bs[i].first) && EndOf(next) == Hi(Firsts(bs), i)
  {
  }

  /** The loop of `split_bucket`, with what stays fixed around it. */
  ghost predicate SplitState(was: seq<Bucket>, i: nat, b: Bucket, low: Bucket, high: Bucket, rest: seq<Node>, mid: Id,
                             myid: Id, v4: bool)
    requires i < |was|
  {
    var fs := Firsts(was);
    && Tiling(fs) && Tiling(Split(fs, i, mid)) && b.first == was[i].first && b.nodes == was[i].nodes
       && high.first == mid
    && GoodBucket(b, Lo(fs, i), Hi(fs, i), myid, v4)
    && Halving(b, low, high, rest, Lo(fs, i), Key(mid), Hi(fs, i), myid, v4)
  }

  lemma SplitStart(was: seq<Bucket>, i: nat, b: Bucket, mid: Id, k: nat, m: map<Id, Node>, myid: Id, v4: bool)
    requires Table(was, m, myid, v4) && i < |was| && k > 0 && Aligned(Lo(Firsts(was), i), Hi(Firsts(was), i), k)
    requires Key(mid) == Lo(Firsts(was), i) + Pow2(k - 1)
    requires b == was[i].(cached := b.cached)
    ensures SplitState(was, i, b, b.(nodes := [], count := 0), Bucket(b.af, mid, 0, b.time, [], UNSET), b.nodes, mid,
      myid, v4)
  {
    BucketParts(was, i, m, myid, v4);
    SplitTiling(Firsts(was), i, mid, k);
    hide Tiling, Split, Aligned, Lo, Hi, Ids.Key, Fits;
  }

  lemma CutMade(was: seq<Bucket>, i: nat, b: Bucket, low: Bucket, high: Bucket)
    requires i < |was|
    ensures var l := was[i := b]; l[..i] + [low, high] + l[i + 1..] == CutIn(was, i, low, high)
  {
  }

  lemma CutIs(was: seq<Bucket>, i: nat, b: Bucket, list: seq<Bucket>)
    requires i < |was| && |list| == |was| + 1 && list[..i] == was[..i] && list[i + 2..] == was[i + 1..]
    ensures list == CutIn(was, i, list[i], list[i + 1])
  {
    assert list == list[..i] + [list[i], list[i + 1]] + list[i + 2..];
  }

  lemma SplitTiles(was: seq<Bucket>, i: nat, b: Bucket, low: Bucket, high: Bucket, rest: seq<Node>, mid: Id, myid: Id,
                   v4: bool)
    requires i < |was| && SplitState(was, i, b, low, high, rest, mid, myid, v4)
    ensures Tiling(Firsts(CutIn(was, i, low, high)))
  {
    CutFirsts(was, i, low, high);
  }

  lemma SplitStep(was: seq<Bucket>, i: nat, b: Bucket, l: seq<Bucket>, rest: seq<Node>, mid: Id, j: nat, myid: Id,
                  v4: bool)
    requires i < |was| && |l| == |was| + 1 && l == CutIn(was, i, l[i], l[i + 1]) && rest != []
    requires SplitState(was, i, b, l[i], l[i + 1], rest, mid, myid, v4)
    requires j < |l| && Within(Firsts(l), j, rest[0].id)
    ensures var l' := l[j := Grown(l[j], rest[0])];
            && |l'| == |l| && l' == CutIn(was, i, l'[i], l'[i + 1])
            && SplitState(was, i, b, l'[i], l'[i + 1], rest[1..], mid, myid, v4)
  {
    var fs := Firsts(was);
    CutFirsts(was, i, l[i], l[i + 1]);
    HalvingStep(b, l[i], l[i + 1], rest, Lo(fs, i), Key(mid), Hi(fs, i), myid, v4);
    SplitOwner(fs, i, mid, j, rest[0].id);
    SplitBlocks(fs, i, mid);
    CutIs(was, i, b, l[j := Grown(l[j], rest[0])]) by {
      var l' := l[j := Grown(l[j], rest[0])];
      assert l[..i] == was[..i] && l[i + 2..] == was[i + 1..];
      assert l'[..i] == l[..i] && l'[i + 2..] == l[i + 2..];
    }
    hide Halving, Tiling, GoodBucket, CutIn, Split, Firsts;
  }

  lemma SplitDone(was: seq<Bucket>, i: nat, b: Bucket, l: seq<Bucket>, mid: Id, k: nat, m: map<Id, Node>, myid: Id,
                  v4: bool)
    requires Table(was, m, myid, v4) && i < |was| && k > 0 && Aligned(Lo(Firsts(was), i), Hi(Firsts(was), i), k)
    requires Key(mid) == Lo(Firsts(was), i) + Pow2(k - 1)
    requires |l| == |was| + 1 && l == CutIn(was, i, l[i], l[i + 1])
    requires SplitState(was, i, b, l[i], l[i + 1], [], mid, myid, v4)
    ensures Sound(l, myid, v4) && Denotes(l, m)
    ensures l[..i] == was[..i] && l[i + 2..] == was[i + 1..]
    ensures |l[i].nodes| + |l[i + 1].nodes| == |was[i].nodes|
    ensures Key(l[i + 1].first) == Lo(Firsts(was), i) + Pow2(k - 1)
    ensures k >= 4 && Within(Firsts(was), i, myid) ==> Table(l, m, myid, v4)
  {
    var fs := Firsts(was);
    Halved(b, l[i], l[i + 1], Lo(fs, i), Key(mid), Hi(fs, i), myid, v4);
    assert |multiset(l[i].nodes) + multiset(l[i + 1].nodes)| == |multiset(b.nodes)|;
    CutSound(was, i, l[i], l[i + 1], k, myid, v4);
    CutDenotes(was, i, l[i], l[i + 1], m);
    CutFirsts(was, i, l[i], l[i + 1]);
    if k >= 4 && Within(fs, i, myid) {
      SplitCounted(fs, i, mid, k, myid);
    }
  }
}
