/** The packed buffer of closest good nodes that replies carry. */
module DhtClosest {
  import opened Bytes
  import opened Ids
  import opened DhtTiling
  import opened DhtTable
  import opened DhtBuckets
  import opened Dht
  import opened DhtDistance

  const CLOSEST: nat := 8

  /** Octets of an address and length of a packed node, by family. */
  function AddrLen(family: int): nat
  {
    if family == AF_INET then 4 else 16
  }

  function Size(family: int): nat
  {
    20 + AddrLen(family) + 2
  }

  /** Id, address and port in network order. */
  function Packed(n: Node): (r: seq<Byte>)
    ensures |r| == Size(n.ss.family) && r[..20] == n.id
  {
    n.id + seq(AddrLen(n.ss.family), i requires 0 <= i => Octet(n.ss, i)) + [n.ss.port / 256 % 256, n.ss.port % 256]
  }

  /** What is read back from a packed node: its id, the octets of its address, and
      its port, the most significant octet first. */
  lemma PackedReads(n: Node)
    requires n.ss.port < 0x1_0000
    ensures var p, len := Packed(n), AddrLen(n.ss.family);
            && p[..20] == n.id
            && (forall i :: 0 <= i < len ==> p[20 + i] == Octet(n.ss, i))
            && BigEndian(p[20 + len..]) == n.ss.port
  {
    PortReads(n.ss.port);
    var p, len := Packed(n), AddrLen(n.ss.family);
    assert p[20 + len..] == [n.ss.port / 256 % 256, n.ss.port % 256];
  }

  function NodeIds(l: seq<Node>): (ids: seq<Id>)
    ensures |ids| == |l|
  {
    seq(|l|, i requires 0 <= i < |l| => l[i].id)
  }

  predicate SameFamily(l: seq<Node>, family: int)
  {
    forall n :: n in l ==> n.ss.family == family
  }

  // ---------------------------------------------------------- slots

  lemma SlotFits(size: nat, k: nat, n: nat)
    requires k < n
    ensures 0 <= size * k && size * k + size <= size * n && size * (k + 1) == size * k + size
  {
    assert size * (n - k - 1) >= 0;
    assert size * n == size * k + size + size * (n - k - 1);
  }

  function Slot(buf: seq<Byte>, size: nat, k: nat): seq<Byte>
  {
    if 0 <= size * k && size * k + size <= |buf| then buf[size * k..size * k + size] else []
  }

  /** The buffer holds these nodes, one after the other. */
  predicate Holds(buf: seq<Byte>, l: seq<Node>, size: nat)
  {
    |l| <= CLOSEST && |buf| == size * CLOSEST && forall k: nat :: k < |l| ==> Slot(buf, size, k) == Packed(l[k])
  }

  /** `memmove` within one buffer. */
  method MemMove(a: array<Byte>, dst: nat, src: nat, len: nat)
    requires dst + len <= a.Length && src + len <= a.Length
    modifies a
    ensures a[dst..dst + len] == old(a[src..src + len])
    ensures forall k :: 0 <= k < a.Length && !(dst <= k < dst + len) ==> a[k] == old(a[k])
  {
    var s := a[src..src + len];
    MemCpy(a, dst, s);
  }

  /** `memcpy`. */
  method MemCpy(a: array<Byte>, dst: nat, s: seq<Byte>)
    requires dst + |s| <= a.Length
    modifies a
    ensures a[dst..dst + |s|] == s
    ensures forall k :: 0 <= k < a.Length && !(dst <= k < dst + |s|) ==> a[k] == old(a[k])
  {
    var i := 0;
    while i < |s|
      invariant 0 <= i <= |s|
      invariant forall k :: 0 <= k < i ==> a[dst + k] == s[k]
      invariant forall k :: 0 <= k < a.Length && !(dst <= k < dst + |s|) ==> a[k] == old(a[k])
    {
      a[dst + i] := s[i];
      i := i + 1;
    }
  }

  lemma SlotIs(buf: seq<Byte>, size: nat, k: nat, at: nat)
    requires at == size * k && at + size <= |buf|
    ensures Slot(buf, size, k) == buf[at..at + size]
  {
  }

  /** Nothing outside [from, to) was written. */
  predicate Confined(b: seq<Byte>, b': seq<Byte>, from: nat, to: nat)
  {
    |b| == |b'| && forall x :: 0 <= x < |b| && !(from <= x < to) ==> b'[x] == b[x]
  }

  lemma PieceKept(b: seq<Byte>, b': seq<Byte>, from: nat, to: nat, at: nat, size: nat)
    requires Confined(b, b', from, to) && at + size <= |b| && (at + size <= from || to <= at)
    ensures b'[at..at + size] == b[at..at + size]
  {
  }

  lemma PieceMoved(b: seq<Byte>, b': seq<Byte>, at: nat, up: nat, len: nat, off: nat, size: nat)
    requires at + len <= |b| && up + len <= |b'| && off + size <= len
    requires b'[up..up + len] == b[at..at + len]
    ensures b'[up + off..up + off + size] == b[at + off..at + off + size]
  {
    var x, y := b'[up + off..up + off + size], b[at + off..at + off + size];
    forall k | 0 <= k < size ensures x[k] == y[k] {
      assert x[k] == b'[up..up + len][off + k] && y[k] == b[at..at + len][off + k];
    }
  }

  lemma SlotSum(size: nat, i: nat, k: nat)
    requires i <= k
    ensures size * k == size * i + size * (k - i) && size * (k + 1) == size * (i + 1) + size * (k - i)
  {
  }

  // ------------------------------------------------ insert_closest_node

  lemma IdInSlot(buf: seq<Byte>, l: seq<Node>, size: nat, k: nat, family: int)
    requires Holds(buf, l, size) && k < |l| && SameFamily(l, family) && size == Size(family)
    ensures 0 <= size * k && size * k + size <= |buf| && buf[size * k..size * k + 20] == l[k].id
  {
    SlotFits(size, k, CLOSEST);
    assert Slot(buf, size, k) == Packed(l[k]);
    assert l[k] in l;
    SlotIs(buf, size, k, size * k);
    SlotHead(buf, size * k, size);
  }

  lemma SlotHead(buf: seq<Byte>, at: nat, size: nat)
    requires size >= 20 && at + size <= |buf|
    ensures buf[at..at + size][..20] == buf[at..at + 20]
  {
  }

  /** The search of `insert_closest_node`: the node's place, or that it is there. */
  method FindSlot(nodes: array<Byte>, numnodes: nat, id: Id, n: Node, size: nat, ghost l: seq<Node>)
    returns (known: bool, i: nat)
    requires Holds(nodes[..], l, size) && numnodes == |l| && SameFamily(l, n.ss.family) && size == Size(n.ss.family)
    requires Increasing(NodeIds(l), id)
    ensures known ==> n.id in NodeIds(l)
    ensures !known ==> n.id !in NodeIds(l) && Place(NodeIds(l), n.id, id, i)
  {
    hide Holds, Distance, SameFamily, Size;
    ghost var ids := NodeIds(l);
    i := 0;
    known := false;
    while i < numnodes
      invariant 0 <= i <= numnodes
      invariant forall k :: 0 <= k < i ==> Distance(ids[k], id) < Distance(n.id, id)
    {
      IdInSlot(nodes[..], l, size, i, n.ss.family);
      SizeAtLeast(n.ss.family);
      var m := nodes[size * i..size * i + 20];
      assert m == nodes[..][size * i..size * i + 20] == ids[i];
      var c := MemCmp(n.id, m);
      if c == 0 {
        assert ids[i] == n.id;
        return true, i;
      }
      c := XorCmp(n.id, m, id);
      if c < 0 {
        break;
      }
      i := i + 1;
    }
    PlaceFree(ids, n.id, id, i);
  }

  lemma SizeAtLeast(family: int)
    ensures Size(family) >= 20
  {
  }

  /** `insert_closest_node`: the packed list stays the 8 closest of what was
      offered, nearest first. */
  method InsertClosestNode(nodes: array<Byte>, numnodes: nat, id: Id, n: Node, ghost l: seq<Node>,
                           ghost offered: set<Id>)
    returns (count: nat, ghost l': seq<Node>)
    requires Holds(nodes[..], l, Size(n.ss.family)) && numnodes == |l| && SameFamily(l, n.ss.family)
    requires n.ss.family == AF_INET || n.ss.family == AF_INET6
    requires IsClosest(NodeIds(l), offered, id, CLOSEST)
    modifies nodes
    ensures Holds(nodes[..], l', Size(n.ss.family)) && count == |l'| && SameFamily(l', n.ss.family)
    ensures IsClosest(NodeIds(l'), offered + {n.id}, id, CLOSEST)
    ensures forall x :: x in l' ==> x == n || x in l
  {
    hide Holds, IsClosest, Place, Distance, SameFamily, Size, Packed, NodeIds;
    var size := if n.ss.family == AF_INET then 26 else 38;
    SizeIs(n.ss.family);
    ClosestIncreasing(NodeIds(l), offered, id);
    var known, i := FindSlot(nodes, numnodes, id, n, size, l);
    if known {
      OfferKnown(NodeIds(l), n.id, offered, id, CLOSEST);
      return numnodes, l;
    }
    ClosestBound(l, n.id, id, i, offered);
    if i == 8 {
      OfferFar(NodeIds(l), n.id, offered, id, CLOSEST);
      return numnodes, l;
    }
    count := numnodes;
    if count < 8 {
      count := count + 1;
    }
    ghost var b := nodes[..];
    HoldsLength(b, l, size);
    PackedSize(n);
    ghost var moved, at, len := Splice(nodes, i, count, size, Packed(n));
    l' := Inserted(l, i, n, CLOSEST);
    Shifted(b, moved, nodes[..], l, n, i, count, size, at, len);
    InsertedNodes(l, i, n, id, offered);
  }

  /** Slots i to count - 2 move up by one and p is copied into slot i. */
  method Splice(nodes: array<Byte>, i: nat, count: nat, size: nat, p: seq<Byte>)
    returns (ghost moved: seq<Byte>, ghost at: nat, ghost len: nat)
    requires nodes.Length == size * CLOSEST && i < count <= CLOSEST && |p| == size
    modifies nodes
    ensures at == size * i && len == size * (count - 1 - i)
      && Spliced(old(nodes[..]), moved, nodes[..], p, at, len, size)
  {
    hide Confined, Spliced;
    MoveBounds(size, i, count - 1);
    ghost var b := nodes[..];
    at, len := size * i, size * (count - 1 - i);
    if i < count - 1 {
      MoveUp(nodes, size * (i + 1), size * i, size * (count - i - 1));
    } else {
      NothingMoved(b, at, at + size);
    }
    moved := nodes[..];
    CopyIn(nodes, size * i, p);
    SplicedIs(b, moved, nodes[..], p, at, len, size);
  }

  method MoveUp(nodes: array<Byte>, up: nat, at: nat, len: nat)
    requires at + len <= nodes.Length && up + len <= nodes.Length
    modifies nodes
    ensures Confined(old(nodes[..]), nodes[..], up, up + len)
    ensures nodes[..][up..up + len] == old(nodes[..])[at..at + len]
  {
    MemMove(nodes, up, at, len);
    assert nodes[..][up..up + len] == nodes[up..up + len];
  }

  method CopyIn(nodes: array<Byte>, at: nat, p: seq<Byte>)
    requires at + |p| <= nodes.Length
    modifies nodes
    ensures Confined(old(nodes[..]), nodes[..], at, at + |p|) && nodes[..][at..at + |p|] == p
  {
    MemCpy(nodes, at, p);
    assert nodes[..][at..at + |p|] == nodes[at..at + |p|];
  }

  lemma NothingMoved(b: seq<Byte>, at: nat, up: nat)
    requires at <= |b| && up <= |b|
    ensures Confined(b, b, up, up) && b[up..up] == b[at..at]
  {
  }

  lemma SplicedIs(b: seq<Byte>, moved: seq<Byte>, b': seq<Byte>, p: seq<Byte>, at: nat, len: nat, size: nat)
    requires |b'| == |moved| == |b| && at + size + len <= |b| && |p| == size
    requires Confined(b, moved, at + size, at + size + len) && moved[at + size..at + size + len] == b[at..at + len]
    requires Confined(moved, b', at, at + size) && b'[at..at + size] == p
    ensures Spliced(b, moved, b', p, at, len, size)
  {
  }

  lemma SizeIs(family: int)
    ensures Size(family) == if family == AF_INET then 26 else 38
  {
  }

  lemma PackedSize(n: Node)
    ensures |Packed(n)| == Size(n.ss.family)
  {
  }

  lemma ClosestIncreasing(ids: seq<Id>, offered: set<Id>, id: Id)
    requires IsClosest(ids, offered, id, CLOSEST)
    ensures Increasing(ids, id)
  {
  }

  lemma ClosestBound(l: seq<Node>, nid: Id, id: Id, i: nat, offered: set<Id>)
    requires IsClosest(NodeIds(l), offered, id, CLOSEST) && Place(NodeIds(l), nid, id, i)
    ensures i <= |l| <= CLOSEST
  {
  }

  lemma HoldsLength(b: seq<Byte>, l: seq<Node>, size: nat)
    requires Holds(b, l, size)
    ensures |b| == size * CLOSEST && |l| <= CLOSEST
  {
  }

  lemma MoveBounds(size: nat, i: nat, n: nat)
    requires i <= n < CLOSEST
    ensures size * (i + 1) == size * i + size && size * i >= 0 && size * (n - i) >= 0
      && (n == i ==> size * (n - i) == 0)
    ensures size * i + size + size * (n - i) <= size * CLOSEST
  {
    assert size * (i + 1) + size * (n - i) == size * (n + 1);
    SlotFits(size, n, CLOSEST);
  }

  /** What the move, if there is one, and the copy did to the buffer. */
  predicate Spliced(b: seq<Byte>, moved: seq<Byte>, b': seq<Byte>, p: seq<Byte>, at: nat, len: nat, size: nat)
  {
    && |b'| == |moved| == |b| && at + size + len <= |b| && |p| == size
    && Confined(b, moved, at + size, at + size + len) && moved[at + size..at + size + len] == b[at..at + len]
    && Confined(moved, b', at, at + size) && b'[at..at + size] == p
  }

  lemma SplicedBefore(b: seq<Byte>, moved: seq<Byte>, b': seq<Byte>, p: seq<Byte>, at: nat, len: nat, size: nat, k: nat)
    requires Spliced(b, moved, b', p, at, len, size) && size * k >= 0 && size * k + size <= at
    ensures Slot(b', size, k) == Slot(b, size, k)
  {
    PieceKept(b, moved, at + size, at + size + len, size * k, size);
    PieceKept(moved, b', at, at + size, size * k, size);
  }

  lemma SplicedAfter(b: seq<Byte>, moved: seq<Byte>, b': seq<Byte>, p: seq<Byte>, at: nat, len: nat, size: nat, k: nat,
                     off: nat)
    requires Spliced(b, moved, b', p, at, len, size) && size * k == at + off && size * (k + 1) == at + size + off
      && off + size <= len
    ensures Slot(b', size, k + 1) == Slot(b, size, k)
  {
    PieceMoved(b, moved, at, at + size, len, off, size);
    PieceKept(moved, b', at, at + size, at + size + off, size);
    SlotIs(b, size, k, at + off);
    SlotIs(b', size, k + 1, at + size + off);
  }

  /** The slots after the move and the copy. */
  lemma Shifted(b: seq<Byte>, moved: seq<Byte>, b': seq<Byte>, l: seq<Node>, n: Node, i: nat, count: nat, size: nat,
                at: nat, len: nat)
    requires Holds(b, l, size) && i <= |l| && i < CLOSEST && count == (if |l| < CLOSEST then |l| + 1 else CLOSEST)
    requires at == size * i && len == size * (count - 1 - i) && Spliced(b, moved, b', Packed(n), at, len, size)
    ensures Holds(b', Inserted(l, i, n, CLOSEST), size)
  {
    hide Packed, Spliced, Slot;
    var r := Inserted(l, i, n, CLOSEST);
    InsertedAt(l, i, n, CLOSEST);
    hide Inserted;
    SplicedParts(b, moved, b', Packed(n), at, len, size);
    forall k: nat | k < |r| ensures Slot(b', size, k) == Packed(r[k]) {
      if k < i {
        SlotBefore(size, k, i);
        SplicedBefore(b, moved, b', Packed(n), at, len, size, k);
      } else if k > i {
        SlotSum(size, i, k - 1);
        SlotFits(size, k - 1 - i, count - 1 - i);
        SlotFits(size, i, i + 1);
        SplicedAfter(b, moved, b', Packed(n), at, len, size, k - 1, size * (k - 1 - i));
      } else {
        SlotIs(b', size, i, at);
      }
    }
  }

  lemma SplicedParts(b: seq<Byte>, moved: seq<Byte>, b': seq<Byte>, p: seq<Byte>, at: nat, len: nat, size: nat)
    requires Spliced(b, moved, b', p, at, len, size)
    ensures |b'| == |b| && at + size <= |b| && b'[at..at + size] == p
  {
  }

  lemma SlotBefore(size: nat, k: nat, i: nat)
    requires k < i
    ensures size * k + size <= size * i && size * k >= 0
  {
    assert size * (i - k - 1) >= 0;
    assert size * i == size * k + size + size * (i - k - 1);
  }

  lemma IdsInserted(l: seq<Node>, i: nat, n: Node)
    requires i <= |l|
    ensures NodeIds(Inserted(l, i, n, CLOSEST)) == Inserted(NodeIds(l), i, n.id, CLOSEST)
  {
  }

  lemma InsertedNodes(l: seq<Node>, i: nat, n: Node, id: Id, offered: set<Id>)
    requires IsClosest(NodeIds(l), offered, id, CLOSEST) && Place(NodeIds(l), n.id, id, i) && i < CLOSEST
    requires SameFamily(l, n.ss.family)
    ensures var r := Inserted(l, i, n, CLOSEST);
            && IsClosest(NodeIds(r), offered + {n.id}, id, CLOSEST) && SameFamily(r, n.ss.family)
            && |r| == (if |l| < CLOSEST then |l| + 1 else CLOSEST) && forall x :: x in r ==> x == n || x in l
  {
    hide IsClosest, Place;
    ClosestBound(l, n.id, id, i, offered);
    InsertedAt(l, i, n, CLOSEST);
    Kept(l, i, n, CLOSEST);
    IdsInserted(l, i, n);
    OfferNew(NodeIds(l), n.id, i, offered, id, CLOSEST);
    hide Inserted, NodeIds;
  }

  // ---------------------------------------------- buffer_closest_nodes

  /** The good nodes of a bucket. */
  function GoodIds(ns: seq<Node>, now: int): set<Id>
  {
    set n | n in ns && NodeGood(n, now) :: n.id
  }

  /** `buffer_closest_nodes`: the good nodes of one more bucket are offered. */
  method BufferClosestNodes(nodes: array<Byte>, numnodes: nat, id: Id, ns: seq<Node>, now: int, family: int,
                            ghost l: seq<Node>, ghost offered: set<Id>)
    returns (count: nat, ghost l': seq<Node>)
    requires Holds(nodes[..], l, Size(family)) && numnodes == |l| && SameFamily(l, family) && SameFamily(ns, family)
    requires family == AF_INET || family == AF_INET6
    requires IsClosest(NodeIds(l), offered, id, CLOSEST)
    modifies nodes
    ensures Holds(nodes[..], l', Size(family)) && count == |l'| && SameFamily(l', family)
    ensures IsClosest(NodeIds(l'), offered + GoodIds(ns, now), id, CLOSEST)
    ensures forall x :: x in l' ==> x in l || (x in ns && NodeGood(x, now))
  {
    hide Holds, IsClosest, Size, NodeIds, NodeGood;
    count, l' := numnodes, l;
    ghost var all := offered;
    var j := 0;
    while j < |ns|
      invariant 0 <= j <= |ns|
      invariant Holds(nodes[..], l', Size(family)) && count == |l'| && SameFamily(l', family)
      invariant IsClosest(NodeIds(l'), all, id, CLOSEST) && all == offered + GoodIds(ns[..j], now)
      invariant forall x :: x in l' ==> x in l || (x in ns && NodeGood(x, now))
    {
      GoodMore(ns, j, now);
      if NodeGood(ns[j], now) {
        count, l' := InsertClosestNode(nodes, count, id, ns[j], l', all);
        all := all + {ns[j].id};
      }
      j := j + 1;
    }
    assert ns[..j] == ns;
  }

  lemma GoodMore(ns: seq<Node>, j: nat, now: int)
    requires j < |ns|
    ensures GoodIds(ns[..j + 1], now) == GoodIds(ns[..j], now) + if NodeGood(ns[j], now) then {ns[j].id} else {}
  {
    assert ns[..j + 1] == ns[..j] + [ns[j]];
  }

  /** The good nodes of the target's bucket and of its two neighbours. */
  function ScannedIds(bs: seq<Bucket>, i: nat, now: int): set<Id>
    requires i < |bs|
  {
    GoodIds(bs[i].nodes, now)
    + (if i + 1 < |bs| then GoodIds(bs[i + 1].nodes, now) else {})
    + (if i > 0 then GoodIds(bs[i - 1].nodes, now) else {})
  }

  /** What makes packing possible: all nodes of the list chosen by a family have
      that family. The first list promises it by itself, the second as long as
      `Families` holds. */
  lemma ListOfFamily(t: RoutingTable, family: int, i: nat)
    requires t.Valid() && t.Families() && (family == AF_INET || family == AF_INET6)
    requires t.ListOf(family) != null && i < |t.ListOf(family).list|
    ensures SameFamily(t.ListOf(family).list[i].nodes, family)
  {
    var b := t.ListOf(family);
    forall n | n in b.list[i].nodes ensures n.ss.family == family {
      assert InTable(b.list, n);
      var j: nat :| j < |b.list[i].nodes| && b.list[i].nodes[j] == n;
      ListFamily(b.list, i, j, b.contents, b.myid, b.v4);
    }
  }

  lemma NothingYet(b: seq<Byte>, id: Id, family: int)
    requires |b| == Size(family) * CLOSEST
    ensures Holds(b, [], Size(family)) && SameFamily([], family) && IsClosest(NodeIds([]), {}, id, CLOSEST)
  {
  }

  /** One address family of `send_closest_nodes`: the buffer holds the 8 closest
      good nodes of the scanned buckets, nearest first. */
  method ClosestNodes(t: RoutingTable, nodes: array<Byte>, id: Id, now: int, family: int)
    returns (numnodes: nat, ghost l: seq<Node>, ghost i: nat)
    requires t.Valid() && t.Families() && (family == AF_INET || family == AF_INET6)
    requires nodes.Length == Size(family) * CLOSEST
    modifies nodes
    ensures Holds(nodes[..], l, Size(family)) && numnodes == |l|
    ensures t.ListOf(family) == null ==> numnodes == 0
    ensures t.ListOf(family) != null ==>
              var bs := t.ListOf(family).list;
              && i < |bs| && Within(Firsts(bs), i, id)
              && IsClosest(NodeIds(l), ScannedIds(bs, i, now), id, CLOSEST)
              && forall x :: x in l ==> NodeGood(x, now) && InTable(bs, x)
  {
    hide Table, Size, Within, Firsts, NodeGood, OneFamily, Holds, IsClosest, NodeIds, SameFamily, GoodIds;
    numnodes, l, i := 0, [], 0;
    NothingYet(nodes[..], id, family);
    var list := t.ListOf(family);
    if list == null {
      return;
    }
    TableTiling(list.list, list.contents, list.myid, list.v4);
    var b := list.FindBucket(id);
    i := b;
    ListOfFamily(t, family, b);
    numnodes, l := BufferClosestNodes(nodes, numnodes, id, list.list[b].nodes, now, family, l, {});
    ghost var offered := {} + GoodIds(list.list[b].nodes, now);
    if b + 1 < |list.list| {
      ListOfFamily(t, family, b + 1);
      numnodes, l := BufferClosestNodes(nodes, numnodes, id, list.list[b + 1].nodes, now, family, l, offered);
      offered := offered + GoodIds(list.list[b + 1].nodes, now);
    }
    if b > 0 {
      ListOfFamily(t, family, b - 1);
      numnodes, l := BufferClosestNodes(nodes, numnodes, id, list.list[b - 1].nodes, now, family, l, offered);
      offered := offered + GoodIds(list.list[b - 1].nodes, now);
    }
    assert offered == ScannedIds(list.list, i, now);
  }
}
