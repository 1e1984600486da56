/** The routing table of dht.c: one list of buckets for each address family. */
module DhtTable {
  import opened Bytes
  import opened Ids
  import opened DhtIds
  import opened DhtTiling

  const AF_INET: int := 2
  const AF_INET6: int := 10

  /** A socket address: family, address octets and port. */
  datatype Addr = Addr(family: int, ip: seq<Byte>, port: nat)

  /** The marker of an unused slot: family 0. */
  const UNSET: Addr := Addr(0, [], 0)

  function Octet(sa: Addr, i: nat): Byte
  {
    if i < |sa.ip| then sa.ip[i] else 0
  }

  /** `is_martian`. */
  predicate IsMartian(sa: Addr)
  {
    if sa.family == AF_INET then
      sa.port == 0 || Octet(sa, 0) == 0 || BitAnd(Octet(sa, 0), 0xE0) == 0xE0
    else if sa.family == AF_INET6 then
      || sa.port == 0
      || Octet(sa, 0) == 0xFF
      || (Octet(sa, 0) == 0xFE && BitAnd(Octet(sa, 1), 0xC0) == 0x80)
      || ((forall i :: 0 <= i < 15 ==> Octet(sa, i) == 0) && (Octet(sa, 15) == 0 || Octet(sa, 15) == 1))
      || ((forall i :: 0 <= i < 10 ==> Octet(sa, i) == 0) && Octet(sa, 10) == 0xFF && Octet(sa, 11) == 0xFF)
    else false
  }

  datatype Node = Node(id: Id, ss: Addr, time: int, replyTime: int, pingedTime: int, pinged: int)

  datatype Bucket = Bucket(af: int, first: Id, count: int, time: int, nodes: seq<Node>, cached: Addr)

  // ---------------------------------------------------- invariants

  function Firsts(bs: seq<Bucket>): (fs: seq<Id>)
    ensures |fs| == |bs|
  {
    seq(|bs|, i requires 0 <= i < |bs| => bs[i].first)
  }

  predicate Fits(n: Node, lo: nat, hi: nat, myid: Id, v4: bool)
  {
    lo <= Key(n.id) < hi && n.id != myid && (n.ss.family == AF_INET <==> v4)
  }

  predicate DistinctIds(ns: seq<Node>)
  {
    forall j, k :: 0 <= j < k < |ns| ==> ns[j].id != ns[k].id
  }

  predicate AllFit(ns: seq<Node>, lo: nat, hi: nat, myid: Id, v4: bool)
  {
    forall n :: n in ns ==> Fits(n, lo, hi, myid, v4)
  }

  predicate GoodBucket(b: Bucket, lo: nat, hi: nat, myid: Id, v4: bool)
  {
    && b.count == |b.nodes| <= 8 && b.af == (if v4 then AF_INET else AF_INET6)
    && AllFit(b.nodes, lo, hi, myid, v4) && DistinctIds(b.nodes)
  }

  ghost predicate Sound(bs: seq<Bucket>, myid: Id, v4: bool)
  {
    && Tiling(Firsts(bs))
    && forall i: nat :: i < |bs| ==> GoodBucket(bs[i], Lo(Firsts(bs), i), Hi(Firsts(bs), i), myid, v4)
  }

  predicate InTable(bs: seq<Bucket>, n: Node)
  {
    exists i: nat :: i < |bs| && n in bs[i].nodes
  }

  /** The nodes of the table are the values of a map from ids. */
  ghost predicate Denotes(bs: seq<Bucket>, m: map<Id, Node>)
  {
    && (forall n :: InTable(bs, n) <==> n.id in m && m[n.id] == n)
    && forall id :: id in m ==> m[id].id == id
  }

  ghost predicate Table(bs: seq<Bucket>, m: map<Id, Node>, myid: Id, v4: bool)
  {
    Sound(bs, myid, v4) && Counted(Firsts(bs), myid) && Denotes(bs, m)
  }

  // ------------------------------------------------- rewriting one bucket

  lemma FirstsKept(bs: seq<Bucket>, i: nat, b: Bucket)
    requires i < |bs| && b.first == bs[i].first
    ensures Firsts(bs[i := b]) == Firsts(bs)
  {
  }

  lemma SoundUpdate(bs: seq<Bucket>, i: nat, b: Bucket, myid: Id, v4: bool)
    requires Sound(bs, myid, v4) && i < |bs| && b.first == bs[i].first
    requires GoodBucket(b, Lo(Firsts(bs), i), Hi(Firsts(bs), i), myid, v4)
    ensures Sound(bs[i := b], myid, v4)
  {
    FirstsKept(bs, i, b);
    hide GoodBucket, Tiling, Firsts, Lo, Hi;
  }

  /** A node's bucket is the one its id falls into. */
  lemma WhereNode(bs: seq<Bucket>, i: nat, j: nat, n: Node, myid: Id, v4: bool)
    requires Sound(bs, myid, v4) && i < |bs| && j < |bs| && n in bs[i].nodes && Within(Firsts(bs), j, n.id)
    ensures i == j
  {
    assert GoodBucket(bs[i], Lo(Firsts(bs), i), Hi(Firsts(bs), i), myid, v4);
    Unique(Firsts(bs), i, j, n.id);
  }

  /** The table's nodes after bucket i is rewritten. */
  lemma InUpdated(bs: seq<Bucket>, i: nat, b: Bucket, n: Node)
    requires i < |bs|
    ensures InTable(bs[i := b], n) <==> n in b.nodes || exists j: nat :: j < |bs| && j != i && n in bs[j].nodes
  {
    var bs' := bs[i := b];
    if n in b.nodes { assert n in bs'[i].nodes; }
    if j: nat :| j < |bs| && j != i && n in bs[j].nodes { assert n in bs'[j].nodes; }
  }

  /** Bucket i changes its nodes, all in its range, as the map does. */
  lemma Rewritten(bs: seq<Bucket>, i: nat, b: Bucket, m: map<Id, Node>, m': map<Id, Node>, myid: Id, v4: bool)
    requires Table(bs, m, myid, v4) && i < |bs| && b.first == bs[i].first
    requires GoodBucket(b, Lo(Firsts(bs), i), Hi(Firsts(bs), i), myid, v4)
    requires forall n: Node :: Within(Firsts(bs), i, n.id) ==> (n in b.nodes <==> n.id in m' && m'[n.id] == n)
    requires forall id :: !Within(Firsts(bs), i, id) ==> (id in m' <==> id in m) && (id in m ==> m'[id] == m[id])
    requires forall id :: id in m' ==> m'[id].id == id
    ensures Table(bs[i := b], m', myid, v4)
  {
    FirstsKept(bs, i, b);
    SoundUpdate(bs, i, b, myid, v4);
    forall n ensures InTable(bs[i := b], n) <==> n.id in m' && m'[n.id] == n {
      InUpdated(bs, i, b, n);
      RewrittenNode(bs, i, b, n, m, myid, v4);
    }
  }

  lemma RewrittenNode(bs: seq<Bucket>, i: nat, b: Bucket, n: Node, m: map<Id, Node>, myid: Id, v4: bool)
    requires Table(bs, m, myid, v4) && i < |bs| && GoodBucket(b, Lo(Firsts(bs), i), Hi(Firsts(bs), i), myid, v4)
    ensures Within(Firsts(bs), i, n.id) ==> !exists j: nat :: j < |bs| && j != i && n in bs[j].nodes
    ensures !Within(Firsts(bs), i, n.id) ==>
      n !in b.nodes && ((exists j: nat :: j < |bs| && j != i && n in bs[j].nodes) <==> n.id in m && m[n.id] == n)
  {
    if j: nat :| j < |bs| && j != i && n in bs[j].nodes && Within(Firsts(bs), i, n.id) {
      WhereNode(bs, j, i, n, myid, v4);
    }
    assert GoodBucket(bs[i], Lo(Firsts(bs), i), Hi(Firsts(bs), i), myid, v4);
    assert (exists j: nat :: j < |bs| && j != i && n in bs[j].nodes) ==> InTable(bs, n);
  }

  lemma MapKey(bs: seq<Bucket>, m: map<Id, Node>, id: Id, myid: Id, v4: bool)
    requires Table(bs, m, myid, v4) && id in m
    ensures m[id].id == id
  {
  }

  /** What the map says of one bucket. */
  lemma BucketOf(bs: seq<Bucket>, i: nat, n: Node, m: map<Id, Node>, myid: Id, v4: bool)
    requires Table(bs, m, myid, v4) && i < |bs| && Within(Firsts(bs), i, n.id)
    ensures n in bs[i].nodes <==> n.id in m && m[n.id] == n
  {
    if n.id in m && m[n.id] == n {
      assert InTable(bs, n);
      var j: nat :| j < |bs| && n in bs[j].nodes;
      WhereNode(bs, j, i, n, myid, v4);
    }
    if n in bs[i].nodes { assert InTable(bs, n); }
  }

  lemma SetAt(ns: seq<Node>, j: nat, n: Node, x: Node)
    requires j < |ns| && DistinctIds(ns)
    ensures x in ns[j := n] <==> x == n || (x in ns && x != ns[j])
  {
    var ns' := ns[j := n];
    if x in ns && x != ns[j] {
      var k :| 0 <= k < |ns| && ns[k] == x;
      assert ns'[k] == x;
    }
    if x == n { assert ns'[j] == x; }
    if x in ns' {
      var k :| 0 <= k < |ns'| && ns'[k] == x;
      assert k != j ==> ns[k] == x;
    }
  }

  /** One node of bucket i gives way to another whose id is its own or new. */
  lemma Swapped(bs: seq<Bucket>, i: nat, j: nat, n: Node, m: map<Id, Node>, myid: Id, v4: bool)
    requires Table(bs, m, myid, v4) && i < |bs| && j < |bs[i].nodes|
    requires Fits(n, Lo(Firsts(bs), i), Hi(Firsts(bs), i), myid, v4)
    requires n.id == bs[i].nodes[j].id || n.id !in m
    ensures var e := bs[i].nodes[j].id;
            e in m && m[e] == bs[i].nodes[j]
              && Table(bs[i := bs[i].(nodes := bs[i].nodes[j := n])], (m - {e})[n.id := n], myid, v4)
  {
    hide Table, Denotes, Sound, Within, Fits, GoodBucket, DistinctIds;
    var b, e, fs := bs[i], bs[i].nodes[j], Firsts(bs);
    var b' := b.(nodes := b.nodes[j := n]);
    BucketParts(bs, i, m, myid, v4);
    NodeWithin(e, fs, i, myid, v4);
    NodeWithin(n, fs, i, myid, v4);
    BucketOf(bs, i, e, m, myid, v4);
    NewIdDistinct(bs, i, j, n, m, myid, v4);
    var m' := (m - {e.id})[n.id := n];
    SwappedGood(b, j, n, Lo(fs, i), Hi(fs, i), myid, v4);
    forall x: Node | Within(fs, i, x.id) ensures x in b'.nodes <==> x.id in m' && m'[x.id] == x {
      SetAt(b.nodes, j, n, x);
      BucketOf(bs, i, x, m, myid, v4);
      SwappedMember(b.nodes, j, x);
      if x.id == n.id && x != n && x in b.nodes { BucketMember(b.nodes, x, j, n.id, m); }
    }
    forall id | id in m' ensures m'[id].id == id {
      if id in m { MapKey(bs, m, id, myid, v4); }
    }
    Rewritten(bs, i, b', m, m', myid, v4);
  }

  lemma BucketMember(ns: seq<Node>, x: Node, j: nat, id: Id, m: map<Id, Node>)
    requires j < |ns| && x in ns && x.id == id && DistinctIds(ns) && (id == ns[j].id || id !in m) && x.id in m
    ensures x == ns[j]
  {
  }

  /** The clauses about one bucket. */
  lemma BucketParts(bs: seq<Bucket>, i: nat, m: map<Id, Node>, myid: Id, v4: bool)
    requires Table(bs, m, myid, v4) && i < |bs|
    ensures GoodBucket(bs[i], Lo(Firsts(bs), i), Hi(Firsts(bs), i), myid, v4)
    ensures DistinctIds(bs[i].nodes) && bs[i].count == |bs[i].nodes| <= 8
    ensures AllFit(bs[i].nodes, Lo(Firsts(bs), i), Hi(Firsts(bs), i), myid, v4)
  {
  }

  lemma NodeWithin(n: Node, fs: seq<Id>, i: nat, myid: Id, v4: bool)
    requires i < |fs| && Fits(n, Lo(fs, i), Hi(fs, i), myid, v4)
    ensures Within(fs, i, n.id)
  {
  }

  lemma SwappedGood(b: Bucket, j: nat, n: Node, lo: nat, hi: nat, myid: Id, v4: bool)
    requires GoodBucket(b, lo, hi, myid, v4) && j < |b.nodes| && Fits(n, lo, hi, myid, v4)
      && DistinctIds(b.nodes[j := n])
    ensures GoodBucket(b.(nodes := b.nodes[j := n]), lo, hi, myid, v4)
  {
    hide Fits;
    forall x | x in b.nodes[j := n] ensures Fits(x, lo, hi, myid, v4) {
      SetAt(b.nodes, j, n, x);
    }
  }

  lemma SwappedMember(ns: seq<Node>, j: nat, x: Node)
    requires j < |ns| && DistinctIds(ns)
    ensures x in ns && x.id == ns[j].id ==> x == ns[j]
  {
  }

  lemma NewIdDistinct(bs: seq<Bucket>, i: nat, j: nat, n: Node, m: map<Id, Node>, myid: Id, v4: bool)
    requires Table(bs, m, myid, v4) && i < |bs| && j < |bs[i].nodes|
    requires n.id == bs[i].nodes[j].id || n.id !in m
    ensures DistinctIds(bs[i].nodes[j := n])
  {
    var ns := bs[i].nodes;
    assert GoodBucket(bs[i], Lo(Firsts(bs), i), Hi(Firsts(bs), i), myid, v4);
    if n.id !in m {
      forall k | 0 <= k < |ns| ensures ns[k].id != n.id {
        assert ns[k] in ns && InTable(bs, ns[k]);
      }
    }
  }

  /** A new node at the head of bucket i. */
  lemma Prepended(bs: seq<Bucket>, i: nat, n: Node, m: map<Id, Node>, myid: Id, v4: bool)
    requires Table(bs, m, myid, v4) && i < |bs| && bs[i].count < 8 && n.id !in m
    requires Fits(n, Lo(Firsts(bs), i), Hi(Firsts(bs), i), myid, v4)
    ensures Table(bs[i := bs[i].(nodes := [n] + bs[i].nodes, count := bs[i].count + 1)], m[n.id := n], myid, v4)
  {
    hide Table, Denotes, Sound, Within, Fits, GoodBucket, DistinctIds;
    var b, fs, m' := bs[i], Firsts(bs), m[n.id := n];
    var b' := b.(nodes := [n] + b.nodes, count := b.count + 1);
    BucketParts(bs, i, m, myid, v4);
    NodeWithin(n, fs, i, myid, v4);
    PrependedGood(b, n, Lo(fs, i), Hi(fs, i), myid, v4) by {
      forall x | x in b.nodes ensures x.id != n.id {
        NodeWithin(x, fs, i, myid, v4);
        BucketOf(bs, i, x, m, myid, v4);
      }
    }
    forall x: Node | Within(fs, i, x.id) ensures x in b'.nodes <==> x.id in m' && m'[x.id] == x {
      BucketOf(bs, i, x, m, myid, v4);
    }
    forall id | id in m' ensures m'[id].id == id {
      if id in m { MapKey(bs, m, id, myid, v4); }
    }
    Rewritten(bs, i, b', m, m', myid, v4);
  }

  lemma PrependedGood(b: Bucket, n: Node, lo: nat, hi: nat, myid: Id, v4: bool)
    requires GoodBucket(b, lo, hi, myid, v4) && b.count < 8 && Fits(n, lo, hi, myid, v4)
    requires forall x :: x in b.nodes ==> x.id != n.id
    ensures GoodBucket(b.(nodes := [n] + b.nodes, count := b.count + 1), lo, hi, myid, v4)
  {
    hide Fits;
    assert forall k :: 0 <= k < |b.nodes| ==> b.nodes[k] in b.nodes;
  }

  /** The time or the cached address of a bucket changes. */
  lemma Touched(bs: seq<Bucket>, i: nat, b: Bucket, m: map<Id, Node>, myid: Id, v4: bool)
    requires Table(bs, m, myid, v4) && i < |bs|
    requires b.first == bs[i].first && b.af == bs[i].af && b.count == bs[i].count && b.nodes == bs[i].nodes
    ensures Table(bs[i := b], m, myid, v4)
  {
    var fs := Firsts(bs);
    assert GoodBucket(bs[i], Lo(fs, i), Hi(fs, i), myid, v4);
    forall x: Node | Within(fs, i, x.id) ensures x in b.nodes <==> x.id in m && m[x.id] == x {
      BucketOf(bs, i, x, m, myid, v4);
    }
    Rewritten(bs, i, b, m, m, myid, v4);
  }
}
