/** The peers dht.c stores for each info hash. */
module DhtStorage {
  import opened Bytes
  import opened Counting
  import opened Ids
  import opened Options
  import opened DhtTable

  const DHT_MAX_PEERS: nat := 2048
  const DHT_MAX_HASHES: nat := 16384

  datatype Peer = Peer(time: int, ip: seq<Byte>, port: nat)

  predicate SamePeer(p: Peer, q: Peer)
  {
    p.ip == q.ip && p.port == q.port
  }

  predicate DistinctPeers(s: seq<Peer>)
  {
    forall i, j :: 0 <= i < j < |s| ==> !SamePeer(s[i], s[j])
  }

  function Min(a: nat, b: nat): nat
  {
    if a < b then a else b
  }

  /** Heard from within the last 32 minutes. */
  predicate Young(p: Peer, now: int)
  {
    p.time >= now - 32 * 60
  }

  /** The young ones among them, as often as they occur. */
  ghost predicate YoungOf(s: seq<Peer>, was: seq<Peer>, now: int)
  {
    forall p: Peer :: multiset(s)[p] == if Young(p, now) then multiset(was)[p] else 0
  }

  /** `struct storage`. */
  class HashEntry {
    const id: Id
    var numpeers: nat
    var maxpeers: nat
    var peers: array<Peer>

    ghost predicate Valid()
      reads this, peers
    {
      && peers.Length == maxpeers <= DHT_MAX_PEERS && numpeers <= maxpeers
      && DistinctPeers(peers[..numpeers])
    }

    /** The peers in use. */
    ghost function Peers(): seq<Peer>
      reads this, peers
    {
      if numpeers <= peers.Length then peers[..numpeers] else []
    }

    constructor (id: Id)
      ensures Valid() && Peers() == [] && this.id == id && fresh(peers)
    {
      this.id := id;
      numpeers, maxpeers := 0, 0;
      peers := new Peer[0];
    }

    /** Where a peer stands in the array, or its end. */
    method FindPeer(ip: seq<Byte>, port: nat) returns (i: nat)
      requires Valid()
      ensures i <= numpeers
      ensures i < numpeers ==> peers[i].ip == ip && peers[i].port == port
      ensures i == numpeers ==> forall k :: 0 <= k < numpeers ==> !(peers[k].ip == ip && peers[k].port == port)
    {
      i := 0;
      while i < numpeers
        invariant 0 <= i <= numpeers
        invariant forall k :: 0 <= k < i ==> !(peers[k].ip == ip && peers[k].port == port)
      {
        if peers[i].port == port && |peers[i].ip| == |ip| && peers[i].ip == ip {
          return;
        }
        i := i + 1;
      }
    }

    /** The part of `storage_store` that deals with one entry: a known peer is
        refreshed, a new one appended if there is or can be made room. */
    method Store(ip: seq<Byte>, port: nat, now: int) returns (rc: int)
      requires Valid()
      modifies this, peers
      ensures Valid() && (peers == old(peers) || fresh(peers))
      ensures numpeers >= 1 && Stored(old(Peers()), Peers(), Peer(now, ip, port), rc)
    {
      ghost var was, p := Peers(), Peer(now, ip, port);
      var i := FindPeer(ip, port);
      if i < numpeers {
        assert was[i] in was;
        peers[i] := peers[i].(time := now);
        assert Peers() == was[i := p];
        Refreshed(was, i, p);
        return 0;
      }
      Unknown(was, p);
      if i >= maxpeers {
        if maxpeers >= DHT_MAX_PEERS {
          return 0;
        }
        Grow();
      }
      peers[numpeers] := Peer(now, ip, port);
      numpeers := numpeers + 1;
      assert Peers() == was + [p];
      Appended(was, p);
      rc := 1;
    }

    /** The reallocation in `storage_store`: the array doubles, up to its limit. */
    method Grow()
      requires Valid() && maxpeers < DHT_MAX_PEERS
      modifies this`maxpeers, this`peers
      ensures Valid() && fresh(peers)
      ensures maxpeers == Min(if old(maxpeers) == 0 then 2 else 2 * old(maxpeers), DHT_MAX_PEERS)
      ensures numpeers == old(numpeers) && Peers() == old(Peers())
    {
      var n := if maxpeers == 0 then 2 else 2 * maxpeers;
      n := Min(n, DHT_MAX_PEERS);
      var newPeers := new Peer[n](_ => Peer(0, [], 0));
      var k := 0;
      while k < numpeers
        invariant 0 <= k <= numpeers && newPeers.Length == n && peers == old(peers)
          && numpeers == old(numpeers) <= peers.Length
        invariant forall x :: 0 <= x < k ==> newPeers[x] == peers[x]
      {
        newPeers[k] := peers[k];
        k := k + 1;
      }
      assert newPeers[..numpeers] == peers[..numpeers];
      peers := newPeers;
      maxpeers := n;
    }

    /** The inner loop of `expire_storage`: old peers are overwritten by the last
        one; what stays is exactly the young ones. */
    method Expire(now: int)
      requires Valid()
      modifies this`numpeers, peers
      ensures Valid() && YoungOf(Peers(), old(Peers()), now)
    {
      hide DistinctPeers, YoungOf, LastInPlace;
      ghost var was := Peers();
      var i := 0;
      YoungStart(was, now);
      while i < numpeers
        invariant 0 <= i <= numpeers <= maxpeers == peers.Length <= DHT_MAX_PEERS && DistinctPeers(Peers())
        invariant Expiring(Peers(), was, i, now)
        decreases numpeers - i
      {
        if peers[i].time < now - 32 * 60 {
          SwapWithLast(Peers(), i, was, now);
          DropAt(i);
        } else {
          StillYoung(Peers(), i, was, now);
          i := i + 1;
        }
      }
      OnlyYoung(Peers(), was, now);
    }

    /** `peers[i] = peers[numpeers - 1]; numpeers--`. */
    method DropAt(i: nat)
      requires i < numpeers <= peers.Length
      modifies this`numpeers, peers
      ensures numpeers == old(numpeers) - 1 && Peers() == LastInPlace(old(Peers()), i)
    {
      ghost var s := Peers();
      if i != numpeers - 1 {
        peers[i] := peers[numpeers - 1];
      }
      numpeers := numpeers - 1;
      assert Peers() == LastInPlace(s, i);
    }
  }

  /** The loop of `Expire`: young peers are untouched as a multiset, and the first
      i that are left are young. */
  ghost predicate Expiring(s: seq<Peer>, was: seq<Peer>, i: nat, now: int)
  {
    && (forall k :: 0 <= k < i && k < |s| ==> Young(s[k], now))
    && (forall p: Peer :: Young(p, now) ==> multiset(s)[p] == multiset(was)[p])
  }

  lemma YoungStart(was: seq<Peer>, now: int)
    ensures Expiring(was, was, 0, now)
  {
  }

  lemma StillYoung(s: seq<Peer>, i: nat, was: seq<Peer>, now: int)
    requires Expiring(s, was, i, now) && i < |s| && Young(s[i], now)
    ensures Expiring(s, was, i + 1, now)
  {
  }

  /** A known peer is refreshed, a new one appended unless 2048 are stored. */
  ghost predicate Stored(was: seq<Peer>, s: seq<Peer>, p: Peer, rc: int)
  {
    if exists q :: q in was && SamePeer(q, p) then
      rc == 0 && exists i :: 0 <= i < |was| && SamePeer(was[i], p) && s == was[i := p]
    else if |was| < DHT_MAX_PEERS then rc == 1 && s == was + [p]
    else rc == 0 && s == was
  }

  /** Who is stored afterwards: the other peers as before, and this one with the new
      time, unless it is new and the entry is full. */
  lemma StoredMembers(was: seq<Peer>, s: seq<Peer>, p: Peer, rc: int)
    requires Stored(was, s, p, rc) && DistinctPeers(was)
    ensures forall q :: q in s && !SamePeer(q, p) <==> q in was && !SamePeer(q, p)
    ensures p in s <==> |was| < DHT_MAX_PEERS || exists q :: q in was && SamePeer(q, p)
    ensures forall q :: q in s && SamePeer(q, p) ==> q == p
  {
    if exists q :: q in was && SamePeer(q, p) {
      var i :| 0 <= i < |was| && SamePeer(was[i], p) && s == was[i := p];
      assert s[i] == p;
      forall q | q in was && !SamePeer(q, p) ensures q in s {
        var k :| 0 <= k < |was| && was[k] == q;
        assert s[k] == q;
      }
      forall q | q in s && q != p ensures q in was && !SamePeer(q, p) {
        var k :| 0 <= k < |s| && s[k] == q;
        assert k != i && was[k] == q && !SamePeer(was[if k < i then k else i], was[if k < i then i else k]);
      }
    }
  }

  lemma Refreshed(was: seq<Peer>, i: nat, p: Peer)
    requires i < |was| && SamePeer(was[i], p) && DistinctPeers(was)
    ensures DistinctPeers(was[i := p]) && forall q :: q in was[i := p] && SamePeer(q, p) ==> q.time == p.time
    ensures exists q :: q in was && SamePeer(q, p)
  {
    assert was[i] in was;
  }

  lemma Unknown(was: seq<Peer>, p: Peer)
    requires forall k :: 0 <= k < |was| ==> !SamePeer(was[k], p)
    ensures !exists q :: q in was && SamePeer(q, p)
  {
  }

  lemma Appended(was: seq<Peer>, p: Peer)
    requires DistinctPeers(was) && forall k :: 0 <= k < |was| ==> !SamePeer(was[k], p)
    ensures DistinctPeers(was + [p]) && forall q :: q in was + [p] && SamePeer(q, p) ==> q.time == p.time
  {
  }

  /** s with its last element in the place of its i-th. */
  function LastInPlace(s: seq<Peer>, i: nat): seq<Peer>
    requires i < |s|
  {
    s[i := s[|s| - 1]][..|s| - 1]
  }

  lemma LastInPlaceDistinct(s: seq<Peer>, i: nat)
    requires i < |s| && DistinctPeers(s)
    ensures DistinctPeers(LastInPlace(s, i))
  {
    var r, n := LastInPlace(s, i), |s| - 1;
    forall j, k | 0 <= j < k < |r| ensures !SamePeer(r[j], r[k]) {
      var a, b := if j == i then n else j, if k == i then n else k;
      assert r[j] == s[a] && r[k] == s[b];
      assert !SamePeer(s[if a < b then a else b], s[if a < b then b else a]);
    }
  }

  lemma LastInPlaceCounts(s: seq<Peer>, i: nat)
    requires i < |s|
    ensures multiset(LastInPlace(s, i)) + multiset{s[i]} == multiset(s)
  {
    var n := |s| - 1;
    var front := s[..n];
    assert s == front + [s[n]];
    if i == n {
      assert LastInPlace(s, i) == front;
    } else {
      assert LastInPlace(s, i) == front[i := s[n]];
      assert multiset(front[i := s[n]]) == multiset(front) - multiset{front[i]} + multiset{s[n]};
      assert front[i] in multiset(front);
    }
  }

  lemma SwapWithLast(s: seq<Peer>, i: nat, was: seq<Peer>, now: int)
    requires i < |s| && !Young(s[i], now) && DistinctPeers(s) && Expiring(s, was, i, now)
    ensures DistinctPeers(LastInPlace(s, i)) && Expiring(LastInPlace(s, i), was, i, now)
  {
    LastInPlaceDistinct(s, i);
    LastInPlaceCounts(s, i);
    forall p: Peer | Young(p, now) ensures multiset(LastInPlace(s, i))[p] == multiset(s)[p] {
      assert multiset(s)[p] == multiset(LastInPlace(s, i))[p] + multiset{s[i]}[p];
    }
  }

  lemma OnlyYoung(s: seq<Peer>, was: seq<Peer>, now: int)
    requires Expiring(s, was, |s|, now)
    ensures YoungOf(s, was, now)
  {
    forall p: Peer | !Young(p, now) ensures multiset(s)[p] == 0 {
      assert forall k :: 0 <= k < |s| ==> s[k] != p;
      assert p !in multiset(s) by { assert p !in s; }
    }
  }

  /** Every info hash has one entry, with its own array of at least one peer. */
  ghost predicate Separate(l: seq<HashEntry>)
    reads l
  {
    && (forall i, j :: 0 <= i < j < |l| ==> l[i].id != l[j].id && l[i] != l[j] && l[i].peers != l[j].peers)
  }

  ghost function Arrays(l: seq<HashEntry>): set<array<Peer>>
    reads l
  {
    set e | e in l :: e.peers
  }

  ghost predicate AllValid(l: seq<HashEntry>)
    reads l, Arrays(l)
  {
    forall e :: e in l ==> e.Valid() && e.numpeers >= 1
  }

  /** The octets of an address that identify a peer, or none for other families. */
  function IpOf(sa: Addr): Option<seq<Byte>>
  {
    if sa.family == AF_INET then Some(seq(4, i requires 0 <= i => Octet(sa, i)))
    else if sa.family == AF_INET6 then Some(seq(16, i requires 0 <= i => Octet(sa, i)))
    else None
  }

  /** Two addresses name one peer's ip exactly if they are of one of the two
      families and agree in its first 4 or 16 octets. */
  lemma IpOfSame(a: Addr, b: Addr)
    ensures IpOf(a).None? <==> a.family != AF_INET && a.family != AF_INET6
    ensures IpOf(a).Some? && IpOf(b).Some? ==>
      (IpOf(a) == IpOf(b) <==>
        a.family == b.family && forall i :: 0 <= i < (if a.family == AF_INET then 4 else 16) ==>
          Octet(a, i) == Octet(b, i))
  {
    if IpOf(a).Some? && IpOf(b).Some? {
      var s, t := IpOf(a).value, IpOf(b).value;
      if s == t {
        forall i | 0 <= i < |s| ensures Octet(a, i) == Octet(b, i) {
          assert s[i] == t[i];
        }
      }
    }
  }

  /** The list `storage` with its counter. */
  class PeerStore {
    var storage: seq<HashEntry>
    var numstorage: int

    ghost predicate Valid()
      reads this, storage, Arrays(storage)
    {
      numstorage == |storage| <= DHT_MAX_HASHES && Separate(storage) && AllValid(storage)
    }

    constructor ()
      ensures Valid() && storage == []
    {
      storage, numstorage := [], 0;
    }

    /** `find_storage`. */
    method FindStorage(id: Id) returns (st: HashEntry?)
      requires Valid()
      ensures st != null ==> st in storage && st.id == id
      ensures st == null ==> forall e :: e in storage ==> e.id != id
    {
      var i := 0;
      while i < |storage|
        invariant 0 <= i <= |storage| && forall k :: 0 <= k < i ==> storage[k].id != id
      {
        var c := MemCmp(id, storage[i].id);
        if c == 0 {
          return storage[i];
        }
        i := i + 1;
      }
      st := null;
    }

    /** The entry of a hash, made if there is none and room for one. */
    method EntryFor(id: Id) returns (st: HashEntry?)
      requires Valid()
      modifies this
      ensures st == null <==> old(numstorage) >= DHT_MAX_HASHES && forall e :: e in old(storage) ==> e.id != id
      ensures st == null ==> storage == old(storage) && numstorage == old(numstorage)
      ensures st != null ==> st in storage && st.id == id && st.Valid()
      ensures st != null ==>
                || (st in old(storage) && storage == old(storage))
                || (storage == [st] + old(storage) && fresh(st) && fresh(st.peers) && st.Peers() == [])
      ensures numstorage == |storage| <= DHT_MAX_HASHES && Separate(storage)
      ensures forall e :: e in storage && e != st ==> e.Valid() && e.numpeers >= 1
    {
      st := FindStorage(id);
      if st == null {
        if numstorage >= DHT_MAX_HASHES {
          return;
        }
        st := new HashEntry(id);
        storage := [st] + storage;
        numstorage := numstorage + 1;
      }
    }

    /** The rest of `storage_store`, on the entry found or made. */
    method StoreIn(e: HashEntry, p: Peer) returns (rc: int)
      requires numstorage == |storage| <= DHT_MAX_HASHES && Separate(storage)
      requires e in storage && e.Valid() && forall x :: x in storage && x != e ==> x.Valid() && x.numpeers >= 1
      modifies e, e.peers
      ensures Valid() && rc != -1 && Stored(old(e.Peers()), e.Peers(), p, rc)
      ensures forall x :: x in storage && x != e ==> x.Peers() == old(x.Peers())
    {
      hide DistinctPeers, SamePeer, Stored;
      ghost var was := e.Peers();
      Apart(storage, e);
      assert forall x :: x in storage ==> allocated(x) && allocated(x.peers);
      rc := e.Store(p.ip, p.port, p.time);
      StoredCode(was, e.Peers(), p, rc);
    }

    /** `storage_store`: one hash learns of one peer, everything else stays, the
        other peers of this hash included. */
    method StorageStore(id: Id, sa: Addr, now: int) returns (rc: int, ghost st: HashEntry?)
      requires Valid()
      modifies this, storage, Arrays(storage)
      ensures Valid()
      ensures rc == -1 <==>
        IpOf(sa).None? || (old(numstorage) >= DHT_MAX_HASHES && forall e :: e in old(storage) ==> e.id != id)
      ensures rc == -1 ==> storage == old(storage)
      ensures rc != -1 ==> st != null && st in storage && st.id == id
      ensures rc != -1 ==>
                || (st in old(storage) && storage == old(storage))
                || (storage == [st] + old(storage) && fresh(st))
      ensures rc != -1 ==>
                var was := if st in old(storage) then old(st.Peers()) else [];
                Stored(was, st.Peers(), Peer(now, IpOf(sa).value, sa.port), rc)
      ensures forall e :: e in old(storage) && e != st ==> e.Peers() == old(e.Peers())
    {
      hide DistinctPeers, SamePeer, Stored, IpOf;
      st := null;
      var ip := IpOf(sa);
      if ip.None? {
        return -1, st;
      }
      var e := EntryFor(id);
      if e == null {
        return -1, st;
      }
      st := e;
      rc := StoreIn(e, Peer(now, ip.value, sa.port));
    }

    /** `expire_storage`: of every hash exactly the peers of the last 32 minutes
        stay, and exactly the hashes left without any are unlinked. */
    method ExpireStorage(now: int)
      requires Valid()
      modifies this, storage, Arrays(storage)
      ensures Valid() && storage == Alive(old(storage), old(PeersOf(storage)), now)
      ensures forall e :: e in storage ==> e in old(storage)
      ensures forall e :: e in storage ==> YoungOf(PeersOf(storage)[e], old(PeersOf(storage))[e], now)
    {
      hide Separate, AllValid, HasYoung, PeersOf, Sweep, YoungOf, Alive;
      ghost var all, was := storage, PeersOf(storage);
      ghost var k := 0;
      var i := 0;
      PeersOfAll(storage);
      SweepStart(all, was, now);
      while i < |storage|
        invariant 0 <= k <= |all| && Sweep(storage, PeersOf(storage), all, was, k, i, now)
        invariant numstorage == |storage| <= DHT_MAX_HASHES && Separate(storage) && AllValid(storage)
        invariant (forall e :: e in storage ==> e in all) && Arrays(storage) <= old(Arrays(storage))
        decreases |all| - k
      {
        SweepLeft(storage, PeersOf(storage), all, was, k, i, now);
        var e := storage[i];
        assert e in storage && e in all && e.peers in Arrays(storage);
        var kept := SweepTurn(e, i, all, was, k, now);
        k := k + 1;
        if kept {
          i := i + 1;
        }
      }
      SweepDone(storage, PeersOf(storage), all, was, k, i, now);
    }

    /** `ExpireAt`, in terms of the whole sweep. */
    method SweepTurn(e: HashEntry, i: nat, ghost all: seq<HashEntry>, ghost was: map<HashEntry, seq<Peer>>,
                     ghost k: nat, now: int)
      returns (kept: bool)
      requires numstorage == |storage| && Separate(storage) && AllValid(storage) && i < |storage| && e == storage[i]
      requires k < |all| && Sweep(storage, PeersOf(storage), all, was, k, i, now)
      modifies this, e`numpeers, e.peers
      ensures numstorage == |storage| <= |old(storage)| && Separate(storage) && AllValid(storage)
      ensures Sweep(storage, PeersOf(storage), all, was, k + 1, if kept then i + 1 else i, now)
      ensures (forall x :: x in storage ==> x in old(storage)) && Arrays(storage) <= old(Arrays(storage))
    {
      hide Separate, AllValid, HasYoung, PeersOf, Sweep, YoungOf, Arrays;
      ghost var l, cur := storage, PeersOf(storage);
      PeersOfAll(l);
      NoRepeats(l);
      kept := ExpireAt(e, i, now);
      PeersOfAll(storage);
      SweepStep(l, cur, storage, PeersOf(storage), all, was, k, i, kept, now);
    }

    /** One turn of the outer loop of `expire_storage`. */
    method ExpireAt(e: HashEntry, i: nat, now: int) returns (kept: bool)
      requires numstorage == |storage| && Separate(storage) && AllValid(storage) && i < |storage| && e == storage[i]
      modifies this, e`numpeers, e.peers
      ensures kept <==> HasYoung(old(storage[i].Peers()), now)
      ensures kept ==> storage == old(storage) && YoungOf(storage[i].Peers(), old(storage[i].Peers()), now)
      ensures !kept ==> storage == old(storage)[..i] + old(storage)[i + 1..]
      ensures numstorage == |storage| && Separate(storage) && AllValid(storage)
      ensures forall x :: x in storage ==> x in old(storage) && x.peers == old(x.peers)
      ensures forall x :: x in storage && x != old(storage)[i] ==> x.Peers() == old(x.Peers())
      ensures Arrays(storage) <= old(Arrays(storage))
    {
      hide DistinctPeers, YoungOf, HasYoung;
      ghost var was := e.Peers();
      ExpireEntry(e, now);
      EmptyIff(e.Peers(), was, now);
      kept := e.numpeers != 0;
      if !kept {
        storage := storage[..i] + storage[i + 1..];
        numstorage := numstorage - 1;
      }
    }

    /** The peers of one entry expire; those of the others are elsewhere. */
    method ExpireEntry(e: HashEntry, now: int)
      requires Separate(storage) && AllValid(storage) && e in storage
      modifies e`numpeers, e.peers
      ensures e.Valid() && YoungOf(e.Peers(), old(e.Peers()), now)
      ensures forall x :: x in storage && x != e ==> x.Valid() && x.numpeers >= 1 && x.Peers() == old(x.Peers())
    {
      hide DistinctPeers, YoungOf;
      Apart(storage, e);
      e.Expire(now);
    }
  }

  /** What every entry holds, by value. */
  ghost function PeersOf(l: seq<HashEntry>): map<HashEntry, seq<Peer>>
    reads l, Arrays(l)
  {
    map e | e in l :: e.Peers()
  }

  /** The entries with a young peer, in their order. */
  ghost function Alive(l: seq<HashEntry>, was: map<HashEntry, seq<Peer>>, now: int): seq<HashEntry>
    requires forall e :: e in l ==> e in was
  {
    if l == [] then [] else Alive(l[..|l| - 1], was, now) + if HasYoung(was[l[|l| - 1]], now) then [l[|l| - 1]] else []
  }

  predicate HasYoung(s: seq<Peer>, now: int)
  {
    exists p: Peer :: p in s && Young(p, now)
  }

  /** Which entries have a peer of the last 32 minutes. */
  ghost function YoungFlags(l: seq<HashEntry>, was: map<HashEntry, seq<Peer>>, now: int): (f: seq<bool>)
    requires forall e :: e in l ==> e in was
    ensures |f| == |l|
  {
    seq(|l|, i requires 0 <= i < |l| => exists p: Peer :: p in was[l[i]] && p.time >= now - 32 * 60)
  }

  /** Exactly these stay linked, in their order. */
  lemma {:induction false} AliveCounts(l: seq<HashEntry>, was: map<HashEntry, seq<Peer>>, now: int)
    requires forall e :: e in l ==> e in was
    ensures Picks(Alive(l, was, now), l, YoungFlags(l, was, now))
    decreases |l|
  {
    hide Picks;
    if l == [] {
      PicksNothing(l, YoungFlags(l, was, now));
    } else {
      var t, e := l[..|l| - 1], l[|l| - 1];
      AliveCounts(t, was, now);
      var b := HasYoung(was[e], now);
      assert l == t + [e] && YoungFlags(l, was, now) == YoungFlags(t, was, now) + [b];
      PicksSnoc(Alive(t, was, now), t, e, YoungFlags(t, was, now), b);
    }
  }

  lemma PeersOfAll(l: seq<HashEntry>)
    ensures forall e :: e in l ==> e in PeersOf(l) && PeersOf(l)[e] == e.Peers()
  {
  }

  /** Where `expire_storage` stands after k entries, i of which stayed. */
  ghost predicate Sweep(l: seq<HashEntry>, cur: map<HashEntry, seq<Peer>>, all: seq<HashEntry>, was: map<HashEntry,
                        seq<Peer>>, k: nat, i: nat, now: int)
    requires k <= |all|
  {
    && (forall e :: e in all ==> e in was)
    && l == Alive(all[..k], was, now) + all[k..] && i == |Alive(all[..k], was, now)| && SweepValues(l, cur, was, i, now)
  }

  /** The first i entries have expired, the others are as they were. */
  ghost predicate SweepValues(l: seq<HashEntry>, cur: map<HashEntry, seq<Peer>>, was: map<HashEntry, seq<Peer>>,
                              i: nat, now: int)
  {
    && (forall e :: e in l ==> e in cur && e in was)
    && (forall x :: 0 <= x < i && x < |l| ==> YoungOf(cur[l[x]], was[l[x]], now))
    && (forall x :: i <= x < |l| ==> cur[l[x]] == was[l[x]])
  }

  lemma ValuesKept(l: seq<HashEntry>, cur: map<HashEntry, seq<Peer>>, cur': map<HashEntry, seq<Peer>>,
                   was: map<HashEntry, seq<Peer>>, i: nat, now: int)
    requires SweepValues(l, cur, was, i, now) && i < |l| && forall x, y :: 0 <= x < y < |l| ==> l[x] != l[y]
    requires forall e :: e in l ==> e in cur'
    requires forall e :: e in l && e != l[i] ==> cur'[e] == cur[e]
    requires YoungOf(cur'[l[i]], was[l[i]], now)
    ensures SweepValues(l, cur', was, i + 1, now)
  {
    hide YoungOf;
  }

  lemma ValuesGone(l: seq<HashEntry>, cur: map<HashEntry, seq<Peer>>, cur': map<HashEntry, seq<Peer>>,
                   was: map<HashEntry, seq<Peer>>, i: nat, now: int)
    requires SweepValues(l, cur, was, i, now) && i < |l| && forall x, y :: 0 <= x < y < |l| ==> l[x] != l[y]
    requires var l' := l[..i] + l[i + 1..]; forall e :: e in l' ==>
      e in cur' && (e != l[i] && e in cur ==> cur'[e] == cur[e])
    ensures SweepValues(l[..i] + l[i + 1..], cur', was, i, now)
  {
    hide YoungOf;
    var l' := l[..i] + l[i + 1..];
    forall x | 0 <= x < |l'|
      ensures l'[x] in cur && l'[x] in was && cur'[l'[x]] == cur[l'[x]] && l'[x] == l[if x < i then x else x + 1] {
      assert l'[x] in l';
      assert l'[x] == l[if x < i then x else x + 1];
    }
  }

  lemma SweepStart(all: seq<HashEntry>, was: map<HashEntry, seq<Peer>>, now: int)
    requires forall e :: e in all ==> e in was
    ensures Sweep(all, was, all, was, 0, 0, now)
  {
    AliveNone(all, was, now);
  }

  lemma SweepMore(l: seq<HashEntry>, cur: map<HashEntry, seq<Peer>>, all: seq<HashEntry>, was: map<HashEntry,
                  seq<Peer>>, k: nat, i: nat, now: int)
    requires k <= |all| && i < |l| && Sweep(l, cur, all, was, k, i, now)
    ensures k < |all| && l[i] == all[k] && l[i] in cur && l[i] in was && cur[l[i]] == was[l[i]]
  {
  }

  lemma SweepLeft(l: seq<HashEntry>, cur: map<HashEntry, seq<Peer>>, all: seq<HashEntry>, was: map<HashEntry,
                  seq<Peer>>, k: nat, i: nat, now: int)
    requires k <= |all| && i < |l| && Sweep(l, cur, all, was, k, i, now)
    ensures k < |all|
  {
  }

  lemma SweepStep(l: seq<HashEntry>, cur: map<HashEntry, seq<Peer>>, l': seq<HashEntry>, cur': map<HashEntry,
                  seq<Peer>>,
                  all: seq<HashEntry>, was: map<HashEntry, seq<Peer>>, k: nat, i: nat, kept: bool, now: int)
    requires k < |all| && i < |l| && Sweep(l, cur, all, was, k, i, now) && l[i] in cur
    requires kept <==> HasYoung(cur[l[i]], now)
    requires l' == if kept then l else l[..i] + l[i + 1..]
    requires forall x, y :: 0 <= x < y < |l| ==> l[x] != l[y]
    requires forall e :: e in l' ==> e in cur'
    requires forall e :: e in l' && e != l[i] ==> e in cur && cur'[e] == cur[e]
    requires kept ==> YoungOf(cur'[l[i]], cur[l[i]], now)
    ensures Sweep(l', cur', all, was, k + 1, if kept then i + 1 else i, now)
  {
    hide YoungOf, Alive, HasYoung, SweepValues, Sweep;
    if kept {
      SweepKept(l, cur, cur', all, was, k, i, now);
    } else {
      SweepGone(l, cur, cur', all, was, k, i, now);
    }
  }

  lemma SweepKept(l: seq<HashEntry>, cur: map<HashEntry, seq<Peer>>, cur': map<HashEntry, seq<Peer>>,
                  all: seq<HashEntry>, was: map<HashEntry, seq<Peer>>, k: nat, i: nat, now: int)
    requires k < |all| && i < |l| && Sweep(l, cur, all, was, k, i, now) && l[i] in cur && HasYoung(cur[l[i]], now)
    requires forall x, y :: 0 <= x < y < |l| ==> l[x] != l[y]
    requires forall e :: e in l ==> e in cur'
    requires forall e :: e in l && e != l[i] ==> e in cur && cur'[e] == cur[e]
    requires YoungOf(cur'[l[i]], cur[l[i]], now)
    ensures Sweep(l, cur', all, was, k + 1, i + 1, now)
  {
    hide YoungOf, Alive, HasYoung, SweepValues;
    AliveStep(all, k, was, now);
    SweepMore(l, cur, all, was, k, i, now);
    SweepList(l, Alive(all[..k], was, now), all, k, i, l, true);
    ValuesKept(l, cur, cur', was, i, now);
  }

  lemma SweepGone(l: seq<HashEntry>, cur: map<HashEntry, seq<Peer>>, cur': map<HashEntry, seq<Peer>>,
                  all: seq<HashEntry>, was: map<HashEntry, seq<Peer>>, k: nat, i: nat, now: int)
    requires k < |all| && i < |l| && Sweep(l, cur, all, was, k, i, now) && l[i] in cur && !HasYoung(cur[l[i]], now)
    requires forall x, y :: 0 <= x < y < |l| ==> l[x] != l[y]
    requires forall e :: e in l[..i] + l[i + 1..] ==> e in cur'
    requires forall e :: e in l[..i] + l[i + 1..] && e != l[i] ==> e in cur && cur'[e] == cur[e]
    ensures Sweep(l[..i] + l[i + 1..], cur', all, was, k + 1, i, now)
  {
    hide YoungOf, Alive, HasYoung, SweepValues;
    AliveStep(all, k, was, now);
    SweepMore(l, cur, all, was, k, i, now);
    SweepList(l, Alive(all[..k], was, now), all, k, i, l[..i] + l[i + 1..], false);
    ValuesGone(l, cur, cur', was, i, now);
  }

  lemma SweepList(l: seq<HashEntry>, a: seq<HashEntry>, all: seq<HashEntry>, k: nat, i: nat, l': seq<HashEntry>,
                  kept: bool)
    requires k < |all| && l == a + all[k..] && i == |a| && l' == if kept then l else l[..i] + l[i + 1..]
    ensures l' == (if kept then a + [all[k]] else a) + all[k + 1..]
  {
    assert all[k..] == [all[k]] + all[k + 1..];
    assert l[..i] == a && l[i + 1..] == all[k + 1..];
  }

  lemma NoRepeats(l: seq<HashEntry>)
    requires Separate(l)
    ensures forall x, y :: 0 <= x < y < |l| ==> l[x] != l[y]
  {
  }

  lemma SweepDone(l: seq<HashEntry>, cur: map<HashEntry, seq<Peer>>, all: seq<HashEntry>, was: map<HashEntry,
                  seq<Peer>>, k: nat, i: nat, now: int)
    requires k <= |all| && i >= |l| && Sweep(l, cur, all, was, k, i, now)
    ensures l == Alive(all, was, now) && forall e :: e in l ==> e in cur && e in was && YoungOf(cur[e], was[e], now)
  {
    hide YoungOf, HasYoung;
    assert all[k..] == [];
    AliveAll(all, k, was, now);
  }

  lemma AliveNone(l: seq<HashEntry>, was: map<HashEntry, seq<Peer>>, now: int)
    requires forall e :: e in l ==> e in was
    ensures Alive(l[..0], was, now) == []
  {
  }

  lemma AliveStep(l: seq<HashEntry>, k: nat, was: map<HashEntry, seq<Peer>>, now: int)
    requires k < |l| && forall e :: e in l ==> e in was
    ensures Alive(l[..k + 1], was, now) == Alive(l[..k], was, now) + if HasYoung(was[l[k]], now) then [l[k]] else []
    ensures l[k..] == [l[k]] + l[k + 1..]
  {
    assert l[..k + 1][..k] == l[..k];
  }

  lemma AliveAll(l: seq<HashEntry>, k: nat, was: map<HashEntry, seq<Peer>>, now: int)
    requires k <= |l| && forall e :: e in l ==> e in was
    ensures l[k..] == [] ==> Alive(l[..k], was, now) == Alive(l, was, now)
  {
    if l[k..] == [] { assert l[..k] == l; }
  }

  lemma EmptyIff(s: seq<Peer>, was: seq<Peer>, now: int)
    requires YoungOf(s, was, now)
    ensures s == [] <==> !HasYoung(was, now)
  {
    if s != [] {
      assert multiset(s)[s[0]] > 0;
      assert s[0] in multiset(was);
    }
    if p: Peer :| p in was && Young(p, now) {
      assert multiset(was)[p] > 0;
      assert p in multiset(s);
    }
  }

  lemma Apart(l: seq<HashEntry>, e: HashEntry)
    requires Separate(l) && e in l
    ensures forall x :: x in l && x != e ==> x.peers != e.peers
  {
  }

  lemma StoredCode(was: seq<Peer>, s: seq<Peer>, p: Peer, rc: int)
    requires Stored(was, s, p, rc)
    ensures rc != -1
  {
  }
}
