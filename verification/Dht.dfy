/** The two bucket lists of a node, chosen by address family. */
module Dht {
  import opened Ids
  import opened Options
  import opened DhtTable
  import opened DhtBuckets

  /** The routing state of dht.c: `buckets`, `buckets6` and `myid`. */
  class RoutingTable {
    const myid: Id
    const buckets: BucketList?
    const buckets6: BucketList?

    ghost predicate Valid()
      reads this, buckets, buckets6
    {
      && (buckets != null ==> buckets.Valid() && buckets.v4 && buckets.myid == myid)
      && (buckets6 != null ==> buckets6.Valid() && !buckets6.v4 && buckets6.myid == myid)
    }

    /** The tables of `dht_init`, one for each socket that is open. */
    constructor (s: bool, s6: bool, id: Id, now: int)
      ensures Valid() && myid == id && (buckets != null <==> s) && (buckets6 != null <==> s6)
      ensures buckets != null ==> buckets.contents == map[] && fresh(buckets)
      ensures buckets6 != null ==> buckets6.contents == map[] && fresh(buckets6)
    {
      myid := id;
      var b: BucketList?, b6: BucketList? := null, null;
      if s {
        b := new BucketList(true, id, now);
      }
      if s6 {
        b6 := new BucketList(false, id, now);
      }
      buckets, buckets6 := b, b6;
    }

    /** `af == AF_INET ? buckets : buckets6`. */
    function ListOf(af: int): BucketList?
    {
      if af == AF_INET then buckets else buckets6
    }

    /** `find_node`. */
    method FindNode(id: Id, af: int) returns (n: Option<Node>)
      requires Valid()
      ensures n.Some? <==> ListOf(af) != null && id in ListOf(af).contents
      ensures n.Some? ==> n.value == ListOf(af).contents[id]
    {
      var b := ListOf(af);
      if b == null {
        return None;
      }
      n := b.FindNode(id);
    }

    /** Every node of the second list has the address family it is meant for. */
    ghost predicate Families()
      reads this, buckets6
    {
      buckets6 != null ==> OneFamily(buckets6.contents)
    }

    /** `new_node`. Any family but AF_INET lands in the second list, so a call
        keeps its nodes of one family exactly when it names one of the two
        families or stores no address: it is refused, or a known node was heard
        of lately and this is no message from it. */
    method NewNode(id: Id, sa: Addr, confirm: int, now: int) returns (r: Option<Node>)
      requires Valid()
      modifies ListOf(sa.family)
      ensures Valid()
      ensures ListOf(sa.family) == null || id == myid || IsMartian(sa) ==> r.None?
      ensures r.None? && ListOf(sa.family) != null && id != myid && !IsMartian(sa) ==>
                id !in old(ListOf(sa.family).contents) && NoRoom(ListOf(sa.family).list, id, myid, now)
      ensures
        && ListOf(sa.family) != null && id !in old(ListOf(sa.family).contents)
        && NoRoom(old(ListOf(sa.family).list), id, myid, now)
        ==> r.None?
      ensures r.None? && ListOf(sa.family) != null ==>
                OnlyPinged(old(ListOf(sa.family).contents), ListOf(sa.family).contents, now)
      ensures r.Some? ==> id in ListOf(sa.family).contents && ListOf(sa.family).contents[id] == r.value
      ensures r.Some? ==> r.value.id == id
      ensures r.Some? && confirm >= 2 ==>
        r.value.ss == sa && NodeGood(r.value, now) && forall later :: later >= now ==> !KnownBad(r.value, later)
      ensures r.Some? && confirm == 1 ==> r.value.ss == sa && r.value.time == now
      ensures r.Some? && confirm == 1 && id in old(ListOf(sa.family).contents) ==>
        var was := old(ListOf(sa.family).contents)[id];
        r.value.pinged == was.pinged && r.value.pingedTime == was.pingedTime && r.value.replyTime == was.replyTime
      ensures r.Some? && confirm == 0 && id in old(ListOf(sa.family).contents) ==>
        var m := old(ListOf(sa.family).contents);
        if m[id].time >= now - 900 then ListOf(sa.family).contents == m else r.value == m[id].(ss := sa)
      ensures r.Some? && id in old(ListOf(sa.family).contents) ==>
                && r.value == Refreshed(old(ListOf(sa.family).contents)[id], sa, confirm, now)
                && ListOf(sa.family).contents == old(ListOf(sa.family).contents)[id := r.value]
      ensures r.Some? && id !in old(ListOf(sa.family).contents) ==>
                && r.value == Fresh(id, sa, confirm, now)
                && Admitted(old(ListOf(sa.family).contents), ListOf(sa.family).contents, r.value, now)
      ensures old(Families()) ==>
                (Families() <==>
                  || sa.family == AF_INET || sa.family == AF_INET6 || r.None?
                  || old(id in ListOf(sa.family).contents && confirm == 0
                     && ListOf(sa.family).contents[id].time >= now - 900))
    {
      hide Table, Admitted, OnlyPinged, Refreshed, OneFamily, IsMartian, NoRoom;
      var b := ListOf(sa.family);
      if b == null {
        return None;
      }
      ghost var m := b.contents;
      ListValid(b);
      r := b.NewNode(id, sa, confirm, now);
      if r.Some? {
        if id in m {
          RefreshedFamily(m, id, sa, confirm, now);
        } else {
          AdmittedFamily(m, b.contents, r.value, now);
        }
      } else {
        PingedFamily(m, b.contents, now);
      }
    }
  }

  /** A call that breaks the rule: a node of the second list is heard of again
      from an address of a third family. */
  method ThirdFamily(myid: Id, id: Id) returns (t: RoutingTable)
    requires id != myid
    ensures t.Valid() && !t.Families()
  {
    hide Table, Admitted, Refreshed, NoRoom;
    t := new RoutingTable(false, true, myid, 0);
    var first := Addr(AF_INET6, [0x20, 0x01, 0x0D, 0xB8, 0, 0, 0, 0, 0, 0, 0, 0, 0, 0, 0, 1], 6881);
    assert !IsMartian(first) by {
      assert Octet(first, 0) == 0x20;
    }
    var r := t.NewNode(id, first, 2, 0);
    if r.None? {
      EmptyHasRoom(t.buckets6, id, 0);
    }
    r := t.NewNode(id, Addr(7, [], 0), 1, 0);
  }

  lemma EmptyHasRoom(b: BucketList, id: Id, now: int)
    requires b.Valid() && b.contents.Keys == {}
    ensures !NoRoom(b.list, id, b.myid, now)
  {
    hide Table, Firsts, SomeBad, AllGood;
    if i: nat :| i < |b.list| && FullAt(b.list, i, id, b.myid, now) {
      NodeFacts(b.list, i, b.list[i].nodes[0], b.contents, b.myid, b.v4);
    }
  }

  predicate OneFamily(m: map<Id, Node>)
  {
    forall x :: x in m ==> m[x].ss.family == AF_INET6
  }

  lemma ListValid(b: BucketList)
    requires b.Valid()
    ensures forall id :: id in b.contents ==> b.contents[id].id == id
  {
  }

  lemma RefreshedFamily(m: map<Id, Node>, id: Id, sa: Addr, confirm: int, now: int)
    requires id in m
    ensures OneFamily(m) ==>
              (OneFamily(m[id := Refreshed(m[id], sa, confirm, now)]) <==>
                sa.family == AF_INET6 || (confirm == 0 && m[id].time >= now - 900))
  {
    var m' := m[id := Refreshed(m[id], sa, confirm, now)];
    assert id in m' && m'[id] == Refreshed(m[id], sa, confirm, now);
  }

  lemma AdmittedFamily(m: map<Id, Node>, m': map<Id, Node>, n: Node, now: int)
    requires Admitted(m, m', n, now)
    ensures OneFamily(m) && n.ss.family == AF_INET6 ==> OneFamily(m')
    ensures OneFamily(m') ==> n.ss.family == AF_INET6
    ensures n.id in m' && m'[n.id] == n
  {
  }

  lemma PingedFamily(m: map<Id, Node>, m': map<Id, Node>, now: int)
    requires OnlyPinged(m, m', now)
    ensures OneFamily(m) ==> OneFamily(m')
  {
  }
}
