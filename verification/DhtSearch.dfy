/** Searches of dht.c: the candidate list and the steps that exhaust it. */
module DhtSearch {
  import opened Bytes
  import opened Counting
  import opened Ids
  import opened Options
  import opened DhtTable
  import opened DhtDistance

  const SEARCH_NODES: nat := 14

  datatype SearchNode = SearchNode(
    id: Id, ss: Addr, requestTime: int, replyTime: int, pinged: int, token: seq<Byte>, replied: bool, acked: bool)

  function IdsOf(s: seq<SearchNode>): (ids: seq<Id>)
    ensures |ids| == |s|
  {
    seq(|s|, i requires 0 <= i < |s| => s[i].id)
  }

  predicate PingsInRange(s: seq<SearchNode>)
  {
    forall n :: n in s ==> 0 <= n.pinged <= 3
  }

  // -------------------------------------------------- the candidate list

  /** The slot cleared for a new id. */
  function Blank(id: Id): SearchNode
  {
    SearchNode(id, UNSET, 0, 0, 0, [], false, false)
  }

  /** What `insert_search_node` records about a candidate, new or known. */
  function Recorded(n: SearchNode, sa: Addr, replied: bool, token: Option<seq<Byte>>, now: int): SearchNode
  {
    var a := n.(ss := sa);
    var b := if replied then a.(replied := true, replyTime := now, requestTime := 0, pinged := 0) else a;
    if token.Some? && |token.value| < 40 then b.(token := token.value) else b
  }

  lemma InsertedIds(s: seq<SearchNode>, i: nat, n: SearchNode, bound: nat)
    requires i <= |s|
    ensures IdsOf(Inserted(s, i, n, bound)) == Inserted(IdsOf(s), i, n.id, bound)
  {
  }

  /** A search and its candidates, nearest first. */
  class Search {
    var tid: nat
    var af: int
    var stepTime: int
    var id: Id
    var port: nat
    var done: bool
    const nodes: array<SearchNode>
    var numnodes: nat
    ghost var offered: set<Id>

    ghost predicate Valid()
      reads this, nodes
    {
      && nodes.Length == SEARCH_NODES && numnodes <= SEARCH_NODES
      && IsClosest(IdsOf(Entries()), offered, id, SEARCH_NODES) && PingsInRange(Entries())
    }

    ghost function Entries(): seq<SearchNode>
      requires numnodes <= nodes.Length
      reads this, nodes
    {
      nodes[..numnodes]
    }

    /** A fresh slot as `dht_search` fills it in. */
    constructor (id: Id, af: int, tid: nat, port: nat)
      ensures Valid() && offered == {} && Entries() == [] && fresh(nodes)
      ensures this.id == id && this.af == af && this.port == port && !done && stepTime == 0
    {
      this.id, this.af, this.tid, this.port := id, af, tid, port;
      stepTime, done, numnodes := 0, false, 0;
      nodes := new SearchNode[SEARCH_NODES](_ => Blank(id));
      offered := {};
    }

    /** The first loop of `insert_search_node`. */
    method FindPlace(nid: Id) returns (found: bool, i: nat)
      requires Valid()
      ensures found ==> i < numnodes && nodes[i].id == nid
      ensures !found ==> Place(IdsOf(Entries()), nid, id, i) && nid !in IdsOf(Entries())
    {
      hide Distance;
      ghost var ids := IdsOf(Entries());
      i := 0;
      while i < numnodes
        invariant 0 <= i <= numnodes
        invariant forall k :: 0 <= k < i ==> Distance(ids[k], id) < Distance(nid, id)
      {
        var c := MemCmp(nid, nodes[i].id);
        if c == 0 {
          return true, i;
        }
        c := XorCmp(nid, nodes[i].id, id);
        if c < 0 {
          break;
        }
        i := i + 1;
      }
      found := false;
      assert Increasing(ids, id);
      PlaceFree(ids, nid, id, i);
    }

    /** Making room at i. */
    method ShiftUp(i: nat)
      requires nodes.Length == SEARCH_NODES && i < numnodes <= SEARCH_NODES
      modifies nodes
      ensures forall k :: 0 <= k < i ==> nodes[k] == old(nodes[k])
      ensures forall k :: i < k < numnodes ==> nodes[k] == old(nodes[k - 1])
    {
      var j := numnodes - 1;
      while j > i
        invariant i <= j < numnodes
        invariant forall k :: 0 <= k <= j ==> nodes[k] == old(nodes[k])
        invariant forall k :: j < k < numnodes ==> nodes[k] == old(nodes[k - 1])
      {
        nodes[j] := nodes[j - 1];
        j := j - 1;
      }
    }

    /** `insert_search_node`: whatever is offered, the list stays the 14 closest of
        all that was, in strictly increasing distance. */
    method InsertSearchNode(nid: Id, sa: Addr, replied: bool, token: Option<seq<Byte>>, now: int)
      returns (res: int, ghost i: nat)
      requires Valid()
      modifies this`numnodes, this`offered, nodes
      ensures Valid()
      ensures sa.family != af ==> res == 0 && offered == old(offered) && Entries() == old(Entries())
      ensures sa.family == af ==> offered == old(offered) + {nid}
      ensures sa.family == af && nid in IdsOf(old(Entries())) ==>
                res == 1 && i < |old(Entries())| && old(Entries())[i].id == nid
                && Entries() == old(Entries())[i := Recorded(old(Entries())[i], sa, replied, token, now)]
      ensures sa.family == af && nid !in IdsOf(old(Entries())) ==>
                i <= |old(Entries())| && (res == 1 <==> i < SEARCH_NODES)
                && Entries() == Inserted(old(Entries()), i, Recorded(Blank(nid), sa, replied, token, now), SEARCH_NODES)
      ensures res == 1 ==> i < numnodes && nodes[i].id == nid && nodes[i].ss == sa
      ensures res == 1 && replied ==>
        nodes[i].replied && nodes[i].replyTime == now && nodes[i].requestTime == 0 && nodes[i].pinged == 0
      ensures res == 1 && token.Some? && |token.value| < 40 ==> nodes[i].token == token.value
      ensures res == 1 && nid in IdsOf(old(Entries())) ==>
        var was := old(Entries())[i];
        && nodes[i].acked == was.acked
        && (token.None? || |token.value| >= 40 ==> nodes[i].token == was.token)
        && (!replied ==> nodes[i].replied == was.replied && nodes[i].replyTime == was.replyTime
                         && nodes[i].requestTime == was.requestTime && nodes[i].pinged == was.pinged)
      ensures res == 1 && nid !in IdsOf(old(Entries())) ==>
        && !nodes[i].acked && (token.None? || |token.value| >= 40 ==> nodes[i].token == [])
        && (!replied ==>
           !nodes[i].replied && nodes[i].replyTime == 0 && nodes[i].requestTime == 0 && nodes[i].pinged == 0)
    {
      hide IsClosest, Place, Distance, PingsInRange, IdsOf, Inserted;
      i := 0;
      if sa.family != af {
        return 0, i;
      }
      var found, m := FindPlace(nid);
      i := m;
      ghost var was := Entries();
      if !found {
        if m == SEARCH_NODES {
          PlaceEnd(was, m, nid, id);
          OfferFar(IdsOf(was), nid, offered, id, SEARCH_NODES);
          FullList(was, m, Recorded(Blank(nid), sa, replied, token, now));
          offered := offered + {nid};
          return 0, i;
        }
        PlaceEnd(was, m, nid, id);
        OpenSlot(nid, m);
      } else {
        FoundIn(was, m, nid);
      }
      ghost var n := nodes[m];
      InRange(was, m, found, n);
      Record(m, sa, replied, token, now);
      Offered(was, Entries(), found, m, nid, Recorded(n, sa, replied, token, now), offered, id);
      offered := offered + {nid};
      res := 1;
    }

    /** A cleared slot at i; the farthest candidate of a full list is lost. */
    method OpenSlot(nid: Id, i: nat)
      requires nodes.Length == SEARCH_NODES && i <= numnodes <= SEARCH_NODES && i < SEARCH_NODES
      modifies this`numnodes, nodes
      ensures numnodes == (if old(numnodes) < SEARCH_NODES then old(numnodes) + 1 else SEARCH_NODES) && i < numnodes
      ensures nodes[i] == Blank(nid)
      ensures forall k :: 0 <= k < i ==> nodes[k] == old(nodes[k])
      ensures forall k :: i < k < numnodes ==> nodes[k] == old(nodes[k - 1])
    {
      if numnodes < SEARCH_NODES {
        numnodes := numnodes + 1;
      }
      ShiftUp(i);
      nodes[i] := Blank(nid);
    }

    /** The code after the label `found`. */
    method Record(i: nat, sa: Addr, replied: bool, token: Option<seq<Byte>>, now: int)
      requires nodes.Length == SEARCH_NODES && i < numnodes <= SEARCH_NODES
      modifies nodes
      ensures Entries() == old(Entries())[i := Recorded(old(nodes[i]), sa, replied, token, now)]
    {
      nodes[i] := nodes[i].(ss := sa);
      if replied {
        nodes[i] := nodes[i].(replied := true, replyTime := now, requestTime := 0, pinged := 0);
      }
      if token.Some? {
        if |token.value| >= 40 {
        } else {
          nodes[i] := nodes[i].(token := token.value);
        }
      }
    }

    /** `flush_search_node`: one candidate goes, the others keep their order. */
    method FlushSearchNode(i: nat)
      requires Valid() && i < numnodes
      modifies this`numnodes, this`offered, nodes
      ensures Valid() && Entries() == old(Entries())[..i] + old(Entries())[i + 1..]
      ensures offered == Members(IdsOf(Entries()))
    {
      hide IsClosest, PingsInRange, IdsOf, Distance;
      ghost var was := Entries();
      Flushed(was, i, offered, id);
      ShiftDown(i);
      numnodes := numnodes - 1;
      assert Entries() == was[..i] + was[i + 1..];
      offered := Members(IdsOf(Entries()));
    }

    method ShiftDown(i: nat)
      requires i < numnodes <= nodes.Length
      modifies nodes
      ensures forall k :: 0 <= k < i ==> nodes[k] == old(nodes[k])
      ensures forall k :: i <= k < numnodes - 1 ==> nodes[k] == old(nodes[k + 1])
    {
      var j := i;
      while j < numnodes - 1
        invariant i <= j <= numnodes - 1
        invariant forall k :: 0 <= k < i ==> nodes[k] == old(nodes[k])
        invariant forall k :: i <= k < j ==> nodes[k] == old(nodes[k + 1])
        invariant forall k :: j < k < numnodes ==> nodes[k] == old(nodes[k])
      {
        nodes[j] := nodes[j + 1];
        j := j + 1;
      }
    }

    /** The part of `dht_search` that takes up an old search again: doubtful
        candidates go, the others start afresh. */
    method Restart(now: int)
      requires Valid()
      modifies this`numnodes, this`offered, this`done, nodes
      ensures Valid() && !done && Entries() == Refiltered(old(Entries()), now)
      ensures var s := old(Entries()); Picks(Entries(), Cleared(s), SureFlags(s, now))
    {
      hide IsClosest, PingsInRange, Refiltered, Picks, Cleared, SureFlags;
      RefilteredCounts(Entries(), now);
      done := false;
      var i := 0;
      while i < numnodes
        invariant Valid() && 0 <= i <= numnodes && !done
        invariant Refiltered(Entries(), now) == Refiltered(old(Entries()), now)
        invariant forall k :: 0 <= k < i ==> nodes[k] == Afresh(nodes[k]) && !Doubtful(nodes[k], now)
        decreases numnodes, numnodes - i
      {
        if nodes[i].pinged >= 3 || nodes[i].replyTime < now - 7200 {
          RefilterDrop(Entries(), i, now);
          FlushSearchNode(i);
          i := 0;
        } else {
          ghost var s := Entries();
          RefilterReset(s, i, now);
          ResetKeeps(s, i);
          nodes[i] := nodes[i].(pinged := 0, token := [], replied := false, acked := false);
          assert Entries() == s[i := Afresh(s[i])];
          i := i + 1;
        }
      }
      AllAfresh(Entries(), now);
    }

    /** `insert_search_bucket`: the nodes of the bucket are offered; the search
        takes note of those of its own family. */
    method InsertSearchBucket(b: Bucket, now: int)
      requires Valid()
      modifies this`numnodes, this`offered, nodes
      ensures Valid() && offered == old(offered) + set n | n in b.nodes && n.ss.family == af :: n.id
    {
      hide IsClosest, PingsInRange, IdsOf;
      var j := 0;
      while j < |b.nodes|
        invariant 0 <= j <= |b.nodes| && Valid()
        invariant offered == old(offered) + set n | n in b.nodes[..j] && n.ss.family == af :: n.id
      {
        var n := b.nodes[j];
        assert b.nodes[..j + 1] == b.nodes[..j] + [n];
        var res, i := InsertSearchNode(n.id, n.ss, false, None, now);
        j := j + 1;
      }
      assert b.nodes[..j] == b.nodes;
    }

    // ------------------------------------------------- search_step

    /** The first loop of `search_step`. */
    method CheckReplied() returns (allDone: bool)
      requires numnodes <= nodes.Length
      ensures allDone <==> AllReplied(Entries(), 8)
    {
      allDone := true;
      var i, j := 0, 0;
      ghost var s := Entries();
      assert s[0..] == s;
      while i < numnodes && j < 8
        invariant 0 <= i <= numnodes && 0 <= j <= 8 && allDone
        invariant AllReplied(s, 8) <==> AllReplied(s[i..], 8 - j)
      {
        var n := nodes[i];
        assert s[i..][0] == n && s[i..][1..] == s[i + 1..];
        if n.pinged >= 3 {
          i := i + 1;
          continue;
        }
        if !n.replied {
          return false;
        }
        j := j + 1;
        i := i + 1;
      }
    }

    /** One live candidate in the announcement loop. */
    method AnnounceNode(i: nat, now: int) returns (acked: bool)
      requires i < nodes.Length
      modifies nodes
      ensures acked <==> old(nodes[i]).token == [] || old(nodes[i]).acked
      ensures nodes[i] == AnnounceTo(old(nodes[i]), now)
      ensures forall k :: 0 <= k < nodes.Length && k != i ==> nodes[k] == old(nodes[k])
    {
      if |nodes[i].token| == 0 {
        nodes[i] := nodes[i].(acked := true);
      }
      acked := nodes[i].acked;
      if !acked {
        nodes[i] := nodes[i].(pinged := nodes[i].pinged + 1, requestTime := now);
      }
    }

    /** The announcement loop of `search_step`. */
    method Announce(now: int) returns (allAcked: bool, asked: seq<Id>)
      requires numnodes <= nodes.Length
      modifies nodes
      ensures Entries() == Announced(old(Entries()), now, 8) && asked == AnnouncedIds(old(Entries()), 8)
      ensures allAcked <==> AllAcked(old(Entries()), 8)
    {
      hide Announcing;
      allAcked, asked := true, [];
      var i, j := 0, 0;
      ghost var s := Entries();
      AnnouncingStart(s, now);
      while i < numnodes && j < 8
        invariant 0 <= i <= numnodes == |s| && 0 <= j <= 8
        invariant Announcing(Entries(), s, now, i, j, allAcked, asked)
      {
        var n := nodes[i];
        AnnouncingTurn(Entries(), s, now, i, j, allAcked, asked);
        ghost var e := Entries();
        if n.pinged >= 3 {
          i := i + 1;
          continue;
        }
        var acked := AnnounceNode(i, now);
        assert Entries() == e[i := AnnounceTo(e[i], now)];
        if !acked {
          allAcked := false;
          asked := asked + [n.id];
        }
        j := j + 1;
        i := i + 1;
      }
      AnnouncingEnd(Entries(), s, now, i, j, allAcked, asked);
    }

    /** `search_send_get_peers` for the candidate in slot i. */
    method SendGetPeers(i: nat, now: int) returns (sent: bool)
      requires i < nodes.Length
      modifies nodes
      ensures sent <==> Askable(old(nodes[i]), now)
      ensures nodes[i] == if sent then Marked(old(nodes[i]), now) else old(nodes[i])
      ensures forall k :: 0 <= k < nodes.Length && k != i ==> nodes[k] == old(nodes[k])
    {
      var n := nodes[i];
      if n.pinged >= 3 || n.replied || n.requestTime >= now - 15 {
        return false;
      }
      nodes[i] := n.(pinged := n.pinged + 1, requestTime := now);
      sent := true;
    }

    /** The query loop of `search_step`. */
    method Query(now: int) returns (asked: seq<Id>)
      requires numnodes <= nodes.Length
      modifies nodes
      ensures Entries() == Asked(old(Entries()), now, 3) && asked == AskedIds(old(Entries()), now, 3)
    {
      hide Asking;
      asked := [];
      var i, j := 0, 0;
      ghost var s := Entries();
      AskingStart(s, now);
      while i < numnodes
        invariant 0 <= i <= numnodes == |s| && 0 <= j < 3
        invariant Asking(Entries(), s, now, i, j, asked)
      {
        AskingTurn(Entries(), s, now, i, j, asked);
        ghost var e := Entries();
        var sent := SendGetPeers(i, now);
        assert Entries() == if sent then e[i := Marked(e[i], now)] else e;
        if sent {
          j := j + 1;
          asked := asked + [nodes[i].id];
        }
        i := i + 1;
        if j >= 3 {
          break;
        }
      }
      AskingEnd(Entries(), s, now, i, j, asked);
    }

    /** `search_step`: a search is done once the first 8 live candidates have
        replied and, if it announces, have all acknowledged. Otherwise the first 3
        that can be asked are, at most once in 15 seconds, or those of the 8 that
        have not acknowledged are sent the announcement. */
    method SearchStep(now: int) returns (finished: bool, asked: seq<Id>)
      requires Valid()
      modifies this`stepTime, this`done, nodes
      ensures Valid()
      ensures var s := old(Entries());
              var live := First(LiveFlags(s), 8);
              finished <==> Replied(s, live) && (port == 0 || Acknowledged(s, live))
      ensures var s, e := old(Entries()), Entries();
              |e| == |s| && Stepped(s, e, asked, port, old(stepTime), now)
      ensures var s := old(Entries());
              finished <==> AllReplied(s, 8) && (port == 0 || AllAcked(s, 8))
      ensures done <==> old(done) || finished
      ensures var s := old(Entries());
              Entries() == StepResult(s, port, old(stepTime), now) && asked == StepAsked(s, port, old(stepTime), now)
      ensures stepTime == if !AllReplied(old(Entries()), 8) && old(stepTime) + 15 >= now then old(stepTime) else now
    {
      hide IsClosest, PingsInRange, AllReplied, AllAcked, Announced, Asked, AnnouncedIds, AskedIds, IdsOf, Stepped,
        Replied, Acknowledged, First, LiveFlags;
      StepKeeps(Entries(), port, stepTime, now);
      StepCounts(Entries(), port, stepTime, now);
      AllRepliedCounts(Entries(), 8);
      finished, asked := false, [];
      var allDone := CheckReplied();
      if allDone {
        if port == 0 {
          finished := true;
        } else {
          finished, asked := Announce(now);
        }
        if finished {
          done := true;
        }
        stepTime := now;
        return;
      }
      if stepTime + 15 >= now {
        return;
      }
      asked := Query(now);
      stepTime := now;
    }

    /** A search that hears nothing more is done within 3 * numnodes + 1 steps, when
        each comes more than 15 s after the last step and every request. */
    method RunQuietly(times: seq<int>)
      requires Valid() && Spaced(times, stepTime) && Quiet(Entries(), times)
      modifies this`stepTime, this`done, nodes
      ensures Valid() && (|times| >= 3 * numnodes + 1 ==> done)
    {
      hide IsClosest;
      ghost var e := Energy(Entries());
      EnergyBound(Entries());
      var i := 0;
      while i < |times| && !done
        invariant 0 <= i <= |times| && Valid()
        invariant !done ==> Energy(Entries()) + i <= e
        invariant i < |times| ==> stepTime < times[i] - 15 && Late(Entries(), times[i])
      {
        hide PingsInRange, AllReplied, AllAcked, Announced, Asked, Late, Energy, Spaced;
        ghost var s := Entries();
        EnergyDrops(s, port, stepTime, times[i]);
        NextLate(s, port, stepTime, times, i);
        var finished, asked := SearchStep(times[i]);
        i := i + 1;
      }
      EnergyBound(Entries());
    }
  }

  lemma TailStep(s: seq<SearchNode>, i: nat)
    requires i < |s|
    ensures s[i..] != [] && s[i..][0] == s[i] && s[i..][1..] == s[i + 1..]
  {
  }

  /** The query loop after i candidates, j of them asked: the first i entries are
      as they will be, the others as they were. */
  ghost predicate Asking(e: seq<SearchNode>, s: seq<SearchNode>, now: int, i: nat, j: nat, asked: seq<Id>)
  {
    && |e| == |s| && i <= |s| && j <= 3 && e[i..] == s[i..]
    && Asked(s, now, 3) == e[..i] + Asked(s[i..], now, 3 - j)
    && AskedIds(s, now, 3) == asked + AskedIds(s[i..], now, 3 - j)
  }

  lemma AskingStart(s: seq<SearchNode>, now: int)
    ensures Asking(s, s, now, 0, 0, [])
  {
    assert s[0..] == s;
  }

  lemma AskingTurn(e: seq<SearchNode>, s: seq<SearchNode>, now: int, i: nat, j: nat, asked: seq<Id>)
    requires Asking(e, s, now, i, j, asked) && i < |s| && j < 3
    ensures Askable(e[i], now) ==> Asking(e[i := Marked(e[i], now)], s, now, i + 1, j + 1, asked + [e[i].id])
    ensures !Askable(e[i], now) ==> Asking(e, s, now, i + 1, j, asked)
  {
    TailStep(s, i);
    TailStep(e, i);
    AskStep(s[i..], now, 3 - j);
    hide Asked, AskedIds, Askable, Marked;
    OneMore(e, i, Marked(e[i], now), Asked(s[i + 1..], now, 2 - j));
    OneMore(e, i, e[i], Asked(s[i + 1..], now, 3 - j));
    IdsRegroup(asked, [e[i].id], AskedIds(s[i + 1..], now, 2 - j));
    assert e[i := e[i]] == e;
  }

  lemma OneMore(e: seq<SearchNode>, i: nat, x: SearchNode, rest: seq<SearchNode>)
    requires i < |e|
    ensures e[i := x][i + 1..] == e[i + 1..] && e[i := x][..i + 1] + rest == e[..i] + ([x] + rest)
  {
    assert e[i := x][..i + 1] == e[..i] + [x];
  }

  lemma IdsRegroup(a: seq<Id>, b: seq<Id>, c: seq<Id>)
    ensures a + (b + c) == (a + b) + c
  {
  }

  lemma AskingEnd(e: seq<SearchNode>, s: seq<SearchNode>, now: int, i: nat, j: nat, asked: seq<Id>)
    requires Asking(e, s, now, i, j, asked) && (i == |s| || j == 3)
    ensures e == Asked(s, now, 3) && asked == AskedIds(s, now, 3)
  {
    AskNothing(s[i..], now, 3 - j);
    hide Asked, AskedIds;
    assert e == e[..i] + e[i..];
  }

  /** The same for the announcement loop. */
  ghost predicate Announcing(e: seq<SearchNode>, s: seq<SearchNode>, now: int, i: nat, j: nat, acked: bool,
                             asked: seq<Id>)
  {
    && |e| == |s| && i <= |s| && j <= 8 && e[i..] == s[i..]
    && Announced(s, now, 8) == e[..i] + Announced(s[i..], now, 8 - j)
    && AnnouncedIds(s, 8) == asked + AnnouncedIds(s[i..], 8 - j)
    && (AllAcked(s, 8) <==> acked && AllAcked(s[i..], 8 - j))
  }

  lemma AnnouncingStart(s: seq<SearchNode>, now: int)
    ensures Announcing(s, s, now, 0, 0, true, [])
  {
    assert s[0..] == s;
  }

  lemma AnnouncingTurn(e: seq<SearchNode>, s: seq<SearchNode>, now: int, i: nat, j: nat, acked: bool, asked: seq<Id>)
    requires Announcing(e, s, now, i, j, acked, asked) && i < |s| && j < 8
    ensures e[i].pinged >= 3 ==> Announcing(e, s, now, i + 1, j, acked, asked)
    ensures e[i].pinged < 3 ==>
      var now' := e[i].token == [] || e[i].acked;
      Announcing(e[i := AnnounceTo(e[i], now)], s, now, i + 1, j + 1, acked && now',
                 if now' then asked else asked + [e[i].id])
  {
    TailStep(s, i);
    TailStep(e, i);
    AnnounceStep(s[i..], now, 8 - j);
    hide Announced, AnnouncedIds, AllAcked, AnnounceTo;
    if e[i].pinged >= 3 {
      OneMore(e, i, e[i], Announced(s[i + 1..], now, 8 - j));
      assert e[i := e[i]] == e;
    } else {
      OneMore(e, i, AnnounceTo(e[i], now), Announced(s[i + 1..], now, 7 - j));
      IdsRegroup(asked, [e[i].id], AnnouncedIds(s[i + 1..], 7 - j));
      IdsRegroup(asked, [], AnnouncedIds(s[i + 1..], 7 - j));
      assert asked + [] == asked;
    }
  }

  lemma AnnouncingEnd(e: seq<SearchNode>, s: seq<SearchNode>, now: int, i: nat, j: nat, acked: bool, asked: seq<Id>)
    requires Announcing(e, s, now, i, j, acked, asked) && (i == |s| || j == 8)
    ensures e == Announced(s, now, 8) && asked == AnnouncedIds(s, 8) && (acked <==> AllAcked(s, 8))
  {
    NothingLeft(s[i..], now, 8 - j);
    hide Announced, AnnouncedIds, AllAcked;
    assert e == e[..i] + e[i..];
  }

  lemma AnnounceStep(s: seq<SearchNode>, now: int, limit: nat)
    requires s != [] && limit > 0
    ensures s[0].pinged >= 3 ==> Announced(s, now, limit) == [s[0]] + Announced(s[1..], now, limit)
    ensures s[0].pinged >= 3 ==>
      AnnouncedIds(s, limit) == AnnouncedIds(s[1..], limit) && (AllAcked(s, limit) <==> AllAcked(s[1..], limit))
    ensures s[0].pinged < 3 ==> Announced(s, now, limit) == [AnnounceTo(s[0], now)] + Announced(s[1..], now, limit - 1)
    ensures s[0].pinged < 3 ==>
      AnnouncedIds(s, limit)
        == (if s[0].token == [] || s[0].acked then [] else [s[0].id]) + AnnouncedIds(s[1..], limit - 1)
    ensures s[0].pinged < 3 ==>
      (AllAcked(s, limit) <==> (s[0].token == [] || s[0].acked) && AllAcked(s[1..], limit - 1))
  {
  }

  lemma AskStep(s: seq<SearchNode>, now: int, limit: nat)
    requires s != [] && limit > 0
    ensures Askable(s[0], now) ==> Asked(s, now, limit) == [Marked(s[0], now)] + Asked(s[1..], now, limit - 1)
    ensures Askable(s[0], now) ==> AskedIds(s, now, limit) == [s[0].id] + AskedIds(s[1..], now, limit - 1)
    ensures !Askable(s[0], now) ==>
      Asked(s, now, limit) == [s[0]] + Asked(s[1..], now, limit)
        && AskedIds(s, now, limit) == AskedIds(s[1..], now, limit)
  {
  }

  /** Among the first `limit` live candidates, all have replied. */
  predicate AllReplied(s: seq<SearchNode>, limit: nat)
  {
    if s == [] || limit == 0 then true
    else if s[0].pinged >= 3 then AllReplied(s[1..], limit)
    else s[0].replied && AllReplied(s[1..], limit - 1)
  }

  /** ... all have acknowledged the announcement, or gave no token to announce with. */
  predicate AllAcked(s: seq<SearchNode>, limit: nat)
  {
    if s == [] || limit == 0 then true
    else if s[0].pinged >= 3 then AllAcked(s[1..], limit)
    else (s[0].token == [] || s[0].acked) && AllAcked(s[1..], limit - 1)
  }

  predicate Askable(n: SearchNode, now: int)
  {
    n.pinged < 3 && !n.replied && n.requestTime < now - 15
  }

  function Marked(n: SearchNode, now: int): SearchNode
  {
    n.(pinged := n.pinged + 1, requestTime := now)
  }

  /** The list after queries to its first `limit` askable candidates. */
  function Asked(s: seq<SearchNode>, now: int, limit: nat): (r: seq<SearchNode>)
    ensures |r| == |s|
  {
    if s == [] || limit == 0 then s
    else if Askable(s[0], now) then [Marked(s[0], now)] + Asked(s[1..], now, limit - 1)
    else [s[0]] + Asked(s[1..], now, limit)
  }

  function AskedIds(s: seq<SearchNode>, now: int, limit: nat): seq<Id>
  {
    if s == [] || limit == 0 then []
    else if Askable(s[0], now) then [s[0].id] + AskedIds(s[1..], now, limit - 1)
    else AskedIds(s[1..], now, limit)
  }

  function AnnounceTo(n: SearchNode, now: int): SearchNode
  {
    if n.token == [] then n.(acked := true) else if n.acked then n else Marked(n, now)
  }

  /** The list after announcements to its first `limit` live candidates. */
  function Announced(s: seq<SearchNode>, now: int, limit: nat): (r: seq<SearchNode>)
    ensures |r| == |s|
  {
    if s == [] || limit == 0 then s
    else if s[0].pinged >= 3 then [s[0]] + Announced(s[1..], now, limit)
    else [AnnounceTo(s[0], now)] + Announced(s[1..], now, limit - 1)
  }

  function AnnouncedIds(s: seq<SearchNode>, limit: nat): seq<Id>
  {
    if s == [] || limit == 0 then []
    else if s[0].pinged >= 3 then AnnouncedIds(s[1..], limit)
    else (if s[0].token == [] || s[0].acked then [] else [s[0].id]) + AnnouncedIds(s[1..], limit - 1)
  }

  // ------------------------------- the same, by counting positions

  /** The candidates that have not used up their three requests. */
  function LiveFlags(s: seq<SearchNode>): (f: seq<bool>)
    ensures |f| == |s|
  {
    seq(|s|, i requires 0 <= i < |s| => s[i].pinged < 3)
  }

  /** Those among them that have neither replied nor been asked in the last 15 seconds. */
  function AskFlags(s: seq<SearchNode>, now: int): (f: seq<bool>)
    ensures |f| == |s|
  {
    seq(|s|, i requires 0 <= i < |s| => s[i].pinged < 3 && !s[i].replied && s[i].requestTime < now - 15)
  }

  /** Of the candidates with these flags those that have a token and have not
      acknowledged. */
  function TokenFlags(s: seq<SearchNode>, flags: seq<bool>): (f: seq<bool>)
    requires |flags| == |s|
    ensures |f| == |s|
  {
    seq(|s|, i requires 0 <= i < |s| => flags[i] && s[i].token != [] && !s[i].acked)
  }

  predicate Replied(s: seq<SearchNode>, flags: seq<bool>)
    requires |flags| == |s|
  {
    forall i :: 0 <= i < |s| && flags[i] ==> s[i].replied
  }

  predicate Acknowledged(s: seq<SearchNode>, flags: seq<bool>)
    requires |flags| == |s|
  {
    forall i :: 0 <= i < |s| && flags[i] ==> s[i].token == [] || s[i].acked
  }

  /** The flagged candidates were sent a request, one message each in this order;
      e is the list afterwards. */
  predicate Contacted(s: seq<SearchNode>, e: seq<SearchNode>, asked: seq<Id>, flags: seq<bool>, now: int)
    requires |flags| == |e| == |s|
  {
    && Picks(asked, IdsOf(s), flags)
    && forall i :: 0 <= i < |s| ==>
         e[i] == if flags[i] then s[i].(pinged := s[i].pinged + 1, requestTime := now) else s[i]
  }

  lemma LiveCons(n: SearchNode, t: seq<SearchNode>)
    ensures LiveFlags([n] + t) == [n.pinged < 3] + LiveFlags(t)
  {
  }

  lemma AskFlagsCons(n: SearchNode, t: seq<SearchNode>, now: int)
    ensures AskFlags([n] + t, now) == [Askable(n, now)] + AskFlags(t, now)
  {
  }

  lemma RepliedCons(n: SearchNode, t: seq<SearchNode>, b: bool, f: seq<bool>)
    requires |f| == |t|
    ensures Replied([n] + t, [b] + f) <==> (b ==> n.replied) && Replied(t, f)
  {
    var s, g := [n] + t, [b] + f;
    if Replied(s, g) {
      assert b ==> g[0] && s[0].replied;
      forall i | 0 <= i < |t| && f[i] ensures t[i].replied {
        assert g[i + 1] && s[i + 1] == t[i];
      }
    }
    if (b ==> n.replied) && Replied(t, f) {
      forall i | 0 <= i < |s| && g[i] ensures s[i].replied {
        assert i > 0 ==> f[i - 1] && s[i] == t[i - 1];
      }
    }
  }

  lemma AcknowledgedCons(n: SearchNode, t: seq<SearchNode>, b: bool, f: seq<bool>)
    requires |f| == |t|
    ensures Acknowledged([n] + t, [b] + f) <==> (b ==> n.token == [] || n.acked) && Acknowledged(t, f)
  {
    var s, g := [n] + t, [b] + f;
    if Acknowledged(s, g) {
      assert b ==> g[0] && (s[0].token == [] || s[0].acked);
      forall i | 0 <= i < |t| && f[i] ensures t[i].token == [] || t[i].acked {
        assert g[i + 1] && s[i + 1] == t[i];
      }
    }
    if (b ==> n.token == [] || n.acked) && Acknowledged(t, f) {
      forall i | 0 <= i < |s| && g[i] ensures s[i].token == [] || s[i].acked {
        assert i > 0 ==> f[i - 1] && s[i] == t[i - 1];
      }
    }
  }

  lemma NoneFlagged(s: seq<SearchNode>, flags: seq<bool>)
    requires |flags| == |s|
    ensures Replied(s, First(flags, 0)) && Acknowledged(s, First(flags, 0))
  {
    forall i | 0 <= i < |s| ensures !First(flags, 0)[i] {
      FirstNone(flags, i);
    }
  }

  /** "The first `limit` live candidates have replied", and the like, by counting. */
  lemma {:induction false} AllRepliedCounts(s: seq<SearchNode>, limit: nat)
    ensures AllReplied(s, limit) <==> Replied(s, First(LiveFlags(s), limit))
    ensures AllAcked(s, limit) <==> Acknowledged(s, First(LiveFlags(s), limit))
    decreases s
  {
    hide Replied, Acknowledged, First;
    if s == [] {
      NoneFlagged(s, LiveFlags(s));
      assert First(LiveFlags(s), limit) == First(LiveFlags(s), 0);
    } else if limit == 0 {
      NoneFlagged(s, LiveFlags(s));
    } else {
      var n, t := s[0], s[1..];
      assert s == [n] + t;
      var b, rest := n.pinged < 3, if n.pinged < 3 then limit - 1 else limit;
      AllRepliedCounts(t, rest);
      LiveCons(n, t);
      FirstCons(b, LiveFlags(t), limit);
      RepliedCons(n, t, b, First(LiveFlags(t), rest));
      AcknowledgedCons(n, t, b, First(LiveFlags(t), rest));
    }
  }

  lemma NoContact(s: seq<SearchNode>, flags: seq<bool>, now: int)
    requires |flags| == |s| && forall i :: 0 <= i < |s| ==> !flags[i]
    ensures Contacted(s, s, [], flags, now)
  {
    PicksNothing(IdsOf(s), flags);
  }

  lemma ContactCons(n: SearchNode, s: seq<SearchNode>, e: seq<SearchNode>, asked: seq<Id>, b: bool, f: seq<bool>,
                    now: int)
    requires |f| == |e| == |s| && Contacted(s, e, asked, f, now)
    ensures var m := if b then n.(pinged := n.pinged + 1, requestTime := now) else n;
            Contacted([n] + s, [m] + e, if b then [n.id] + asked else asked, [b] + f, now)
  {
    hide Picks, IdsOf;
    PicksCons(asked, n.id, IdsOf(s), b, f);
    HeadIds(n, s);
    var m := if b then n.(pinged := n.pinged + 1, requestTime := now) else n;
    var s', e', f' := [n] + s, [m] + e, [b] + f;
    forall i | 0 <= i < |s'|
      ensures e'[i] == if f'[i] then s'[i].(pinged := s'[i].pinged + 1, requestTime := now) else s'[i]
    {
      if i > 0 { assert e'[i] == e[i - 1] && f'[i] == f[i - 1] && s'[i] == s[i - 1]; }
    }
  }

  /** Queries go to the first `limit` candidates that can be asked. */
  lemma {:induction false} AskedCounts(s: seq<SearchNode>, now: int, limit: nat)
    ensures Contacted(s, Asked(s, now, limit), AskedIds(s, now, limit), First(AskFlags(s, now), limit), now)
    decreases s
  {
    hide Contacted, First;
    if s == [] || limit == 0 {
      NoneFirst(AskFlags(s, now), limit);
      NoContact(s, First(AskFlags(s, now), limit), now);
    } else {
      var n, t := s[0], s[1..];
      assert s == [n] + t;
      var b, rest := Askable(n, now), if Askable(n, now) then limit - 1 else limit;
      AskedCounts(t, now, rest);
      AskFlagsCons(n, t, now);
      FirstCons(b, AskFlags(t, now), limit);
      ContactCons(n, t, Asked(t, now, rest), AskedIds(t, now, rest), b, First(AskFlags(t, now), rest), now);
    }
  }

  /** What an announcement round writes besides: a candidate without a token counts
      as having acknowledged. */
  predicate Excused(e: seq<SearchNode>, e': seq<SearchNode>, flags: seq<bool>)
    requires |flags| == |e'| == |e|
  {
    forall i :: 0 <= i < |e| ==> e'[i] == if flags[i] && e[i].token == [] then e[i].(acked := true) else e[i]
  }

  lemma ExcusedCons(n: SearchNode, e: seq<SearchNode>, e': seq<SearchNode>, b: bool, f: seq<bool>)
    requires |f| == |e'| == |e| && Excused(e, e', f)
    ensures Excused([n] + e, [if b && n.token == [] then n.(acked := true) else n] + e', [b] + f)
  {
  }

  lemma TokenCons(n: SearchNode, t: seq<SearchNode>, b: bool, f: seq<bool>)
    requires |f| == |t|
    ensures TokenFlags([n] + t, [b] + f) == [b && n.token != [] && !n.acked] + TokenFlags(t, f)
  {
  }

  /** Announcements go to the first `limit` live candidates that have a token and
      have not acknowledged; e is the list before the excuses are written. */
  lemma {:induction false} AnnouncedCounts(s: seq<SearchNode>, now: int, limit: nat) returns (e: seq<SearchNode>)
    ensures |e| == |s|
    ensures var f := First(LiveFlags(s), limit);
            Contacted(s, e, AnnouncedIds(s, limit), TokenFlags(s, f), now) && Excused(e, Announced(s, now, limit), f)
    decreases s
  {
    hide Contacted, First, Excused, TokenFlags;
    if s == [] || limit == 0 {
      e := s;
      NoneFirst(LiveFlags(s), limit);
      NoTokens(s, First(LiveFlags(s), limit), now);
    } else {
      var n, t := s[0], s[1..];
      assert s == [n] + t;
      var b, rest := n.pinged < 3, if n.pinged < 3 then limit - 1 else limit;
      var d := AnnouncedCounts(t, now, rest);
      LiveCons(n, t);
      FirstCons(b, LiveFlags(t), limit);
      var f := First(LiveFlags(t), rest);
      TokenCons(n, t, b, f);
      var c := b && n.token != [] && !n.acked;
      var m := if c then n.(pinged := n.pinged + 1, requestTime := now) else n;
      ContactCons(n, t, d, AnnouncedIds(t, rest), c, TokenFlags(t, f), now);
      ExcusedCons(m, d, Announced(t, now, rest), b, f);
      assert [] + AnnouncedIds(t, rest) == AnnouncedIds(t, rest);
      e := [m] + d;
    }
  }

  lemma NoTokens(s: seq<SearchNode>, flags: seq<bool>, now: int)
    requires |flags| == |s| && forall i :: 0 <= i < |s| ==> !flags[i]
    ensures Contacted(s, s, [], TokenFlags(s, flags), now) && Excused(s, s, flags)
  {
    NoContact(s, TokenFlags(s, flags), now);
  }

  lemma NothingLeft(s: seq<SearchNode>, now: int, limit: nat)
    requires s == [] || limit == 0
    ensures Announced(s, now, limit) == s && AnnouncedIds(s, limit) == [] && AllAcked(s, limit)
  {
  }

  lemma AskNothing(s: seq<SearchNode>, now: int, limit: nat)
    requires s == [] || limit == 0
    ensures Asked(s, now, limit) == s && AskedIds(s, now, limit) == []
  {
  }

  predicate Doubtful(n: SearchNode, now: int)
  {
    n.pinged >= 3 || n.replyTime < now - 7200
  }

  function Afresh(n: SearchNode): SearchNode
  {
    n.(pinged := 0, token := [], replied := false, acked := false)
  }

  function Refiltered(s: seq<SearchNode>, now: int): seq<SearchNode>
  {
    if s == [] then [] else (if Doubtful(s[0], now) then [] else [Afresh(s[0])]) + Refiltered(s[1..], now)
  }

  /** The candidates that have not used up their requests and replied within two hours. */
  function SureFlags(s: seq<SearchNode>, now: int): (f: seq<bool>)
    ensures |f| == |s|
  {
    seq(|s|, i requires 0 <= i < |s| => s[i].pinged < 3 && s[i].replyTime >= now - 7200)
  }

  /** Every candidate with its counter, token and flags cleared. */
  function Cleared(s: seq<SearchNode>): (r: seq<SearchNode>)
    ensures |r| == |s|
  {
    seq(|s|, i requires 0 <= i < |s| =>
      SearchNode(s[i].id, s[i].ss, s[i].requestTime, s[i].replyTime, 0, [], false, false))
  }

  /** Taking up a search again keeps the sure candidates, cleared, in their order. */
  lemma {:induction false} RefilteredCounts(s: seq<SearchNode>, now: int)
    ensures Picks(Refiltered(s, now), Cleared(s), SureFlags(s, now))
    decreases s
  {
    hide Picks;
    if s == [] {
      PicksNothing(Cleared(s), SureFlags(s, now));
    } else {
      var n, t := s[0], s[1..];
      RefilteredCounts(t, now);
      assert Cleared(s) == [Afresh(n)] + Cleared(t) && SureFlags(s, now) == [!Doubtful(n, now)] + SureFlags(t, now);
      assert [] + Refiltered(t, now) == Refiltered(t, now);
      PicksCons(Refiltered(t, now), Afresh(n), Cleared(t), !Doubtful(n, now), SureFlags(t, now));
    }
  }

  lemma {:induction false} RefilterDrop(s: seq<SearchNode>, i: nat, now: int)
    requires i < |s| && Doubtful(s[i], now)
    ensures Refiltered(s[..i] + s[i + 1..], now) == Refiltered(s, now)
    decreases i
  {
    if i == 0 {
      assert s[..0] + s[1..] == s[1..];
    } else {
      var t := s[1..];
      RefilterDrop(t, i - 1, now);
      assert (s[..i] + s[i + 1..])[1..] == t[..i - 1] + t[i..];
    }
  }

  lemma {:induction false} RefilterReset(s: seq<SearchNode>, i: nat, now: int)
    requires i < |s| && !Doubtful(s[i], now)
    ensures Refiltered(s[i := Afresh(s[i])], now) == Refiltered(s, now)
    decreases i
  {
    if i > 0 {
      RefilterReset(s[1..], i - 1, now);
      assert s[i := Afresh(s[i])][1..] == s[1..][i - 1 := Afresh(s[i])];
    }
  }

  lemma ResetKeeps(s: seq<SearchNode>, i: nat)
    requires i < |s| && PingsInRange(s)
    ensures IdsOf(s[i := Afresh(s[i])]) == IdsOf(s) && PingsInRange(s[i := Afresh(s[i])])
  {
  }

  lemma {:induction false} AllAfresh(s: seq<SearchNode>, now: int)
    requires forall k :: 0 <= k < |s| ==> s[k] == Afresh(s[k]) && !Doubtful(s[k], now)
    ensures Refiltered(s, now) == s
  {
    if s != [] { AllAfresh(s[1..], now); }
  }

  lemma PlaceEnd(s: seq<SearchNode>, i: nat, nid: Id, target: Id)
    requires Place(IdsOf(s), nid, target, i)
    ensures i <= |s|
  {
  }

  lemma FoundIn(s: seq<SearchNode>, m: nat, nid: Id)
    requires m < |s| && s[m].id == nid
    ensures nid in IdsOf(s)
  {
    assert IdsOf(s)[m] == nid;
  }

  lemma InRange(s: seq<SearchNode>, m: nat, found: bool, n: SearchNode)
    requires PingsInRange(s) && (if found then m < |s| && n == s[m] else n.pinged == 0)
    ensures 0 <= n.pinged <= 3
  {
  }

  lemma FullList(s: seq<SearchNode>, i: nat, n: SearchNode)
    requires |s| == i == SEARCH_NODES
    ensures Inserted(s, i, n, SEARCH_NODES) == s
  {
  }

  /** The list after a candidate was recorded at m. */
  lemma Offered(was: seq<SearchNode>, s: seq<SearchNode>, found: bool, m: nat, nid: Id, n: SearchNode,
                offered: set<Id>, target: Id)
    requires IsClosest(IdsOf(was), offered, target, SEARCH_NODES) && PingsInRange(was) && n.id == nid
      && |was| <= SEARCH_NODES
    requires found ==> m < |was| && was[m].id == nid && s == was[m := n] && 0 <= n.pinged <= 3
    requires !found ==> Place(IdsOf(was), nid, target, m) && m < SEARCH_NODES && 0 <= n.pinged <= 3
    requires !found ==> |s| == (if |was| < SEARCH_NODES then |was| + 1 else SEARCH_NODES) && s[m] == n
    requires !found ==> (forall k :: 0 <= k < m ==> s[k] == was[k]) && (forall k :: m < k < |s| ==> s[k] == was[k - 1])
    ensures IsClosest(IdsOf(s), offered + {nid}, target, SEARCH_NODES) && PingsInRange(s)
    ensures !found ==> s == Inserted(was, m, n, SEARCH_NODES)
  {
    hide IsClosest, Place, Distance;
    if found {
      assert IdsOf(s) == IdsOf(was);
      assert IdsOf(was)[m] == nid;
      OfferKnown(IdsOf(was), nid, offered, target, SEARCH_NODES);
    } else {
      PlaceEnd(was, m, nid, target);
      InsertedAt(was, m, n, SEARCH_NODES);
      assert s == Inserted(was, m, n, SEARCH_NODES);
      InsertedIds(was, m, n, SEARCH_NODES);
      OfferNew(IdsOf(was), nid, m, offered, target, SEARCH_NODES);
    }
    forall x | x in s ensures 0 <= x.pinged <= 3 {
      var k :| 0 <= k < |s| && s[k] == x;
      if k != m { assert (if k < m || found then was[k] else was[k - 1]) in was; }
    }
  }

  lemma Flushed(was: seq<SearchNode>, i: nat, offered: set<Id>, target: Id)
    requires IsClosest(IdsOf(was), offered, target, SEARCH_NODES) && PingsInRange(was) && i < |was|
    ensures var s := was[..i] + was[i + 1..];
            IsClosest(IdsOf(s), Members(IdsOf(s)), target, SEARCH_NODES) && PingsInRange(s)
  {
    var s := was[..i] + was[i + 1..];
    DropOne(IdsOf(was), i, offered, target, SEARCH_NODES);
    assert IdsOf(s) == IdsOf(was)[..i] + IdsOf(was)[i + 1..];
  }

  // ------------------------------------------ what a step does to the list

  function StepResult(s: seq<SearchNode>, port: nat, stepTime: int, now: int): (r: seq<SearchNode>)
    ensures |r| == |s|
  {
    if AllReplied(s, 8) then (if port == 0 then s else Announced(s, now, 8))
    else if stepTime + 15 >= now then s
    else Asked(s, now, 3)
  }

  /** Whom the step sends a message. */
  function StepAsked(s: seq<SearchNode>, port: nat, stepTime: int, now: int): seq<Id>
  {
    if AllReplied(s, 8) then (if port == 0 then [] else AnnouncedIds(s, 8))
    else if stepTime + 15 >= now then []
    else AskedIds(s, now, 3)
  }

  /** Whom a step contacts and what it writes, by counting: e is the list after it. */
  ghost predicate Stepped(s: seq<SearchNode>, e: seq<SearchNode>, asked: seq<Id>, port: nat, stepTime: int, now: int)
    requires |e| == |s|
  {
    var live := First(LiveFlags(s), 8);
    if Replied(s, live) && port > 0 then
      exists d: seq<SearchNode> ::
        |d| == |s| && Contacted(s, d, asked, TokenFlags(s, live), now) && Excused(d, e, live)
    else if !Replied(s, live) && stepTime + 15 < now then
      Contacted(s, e, asked, First(AskFlags(s, now), 3), now)
    else
      e == s && asked == []
  }

  lemma StepCounts(s: seq<SearchNode>, port: nat, stepTime: int, now: int)
    ensures Stepped(s, StepResult(s, port, stepTime, now), StepAsked(s, port, stepTime, now), port, stepTime, now)
  {
    hide Replied, Acknowledged, Contacted, Excused, First, AllReplied, Asked, AskedIds, Announced, AnnouncedIds;
    AllRepliedCounts(s, 8);
    AskedCounts(s, now, 3);
    var d := AnnouncedCounts(s, now, 8);
  }

  lemma {:induction false} AskedKeeps(s: seq<SearchNode>, now: int, limit: nat)
    requires PingsInRange(s)
    ensures IdsOf(Asked(s, now, limit)) == IdsOf(s) && PingsInRange(Asked(s, now, limit))
  {
    if s != [] && limit > 0 {
      var t := s[1..];
      assert s == [s[0]] + t;
      HeadIds(s[0], t);
      AskStep(s, now, limit);
      hide Asked, IdsOf, PingsInRange;
      if Askable(s[0], now) {
        AskedKeeps(t, now, limit - 1);
        HeadIds(Marked(s[0], now), Asked(t, now, limit - 1));
      } else {
        AskedKeeps(t, now, limit);
        HeadIds(s[0], Asked(t, now, limit));
      }
    }
  }

  lemma HeadIds(n: SearchNode, t: seq<SearchNode>)
    ensures IdsOf([n] + t) == [n.id] + IdsOf(t)
    ensures PingsInRange([n] + t) <==> 0 <= n.pinged <= 3 && PingsInRange(t)
  {
    if PingsInRange([n] + t) {
      forall x | x in t ensures 0 <= x.pinged <= 3 {
        assert x in [n] + t;
      }
      assert n in [n] + t;
    }
  }

  lemma {:induction false} AnnouncedKeeps(s: seq<SearchNode>, now: int, limit: nat)
    requires PingsInRange(s)
    ensures IdsOf(Announced(s, now, limit)) == IdsOf(s) && PingsInRange(Announced(s, now, limit))
  {
    if s != [] && limit > 0 {
      var t := s[1..];
      assert s == [s[0]] + t;
      HeadIds(s[0], t);
      AnnounceStep(s, now, limit);
      hide Announced, IdsOf, PingsInRange;
      if s[0].pinged < 3 {
        AnnouncedKeeps(t, now, limit - 1);
        HeadIds(AnnounceTo(s[0], now), Announced(t, now, limit - 1));
      } else {
        AnnouncedKeeps(t, now, limit);
        HeadIds(s[0], Announced(t, now, limit));
      }
    }
  }

  /** A step changes neither the candidates nor their order. */
  lemma StepKeeps(s: seq<SearchNode>, port: nat, stepTime: int, now: int)
    requires PingsInRange(s)
    ensures IdsOf(StepResult(s, port, stepTime, now)) == IdsOf(s) && PingsInRange(StepResult(s, port, stepTime, now))
  {
    AskedKeeps(s, now, 3);
    AnnouncedKeeps(s, now, 8);
  }

  // ------------------------------------------------------- termination

  /** Requests the candidates can still be sent before all count as dead. */
  function Energy(s: seq<SearchNode>): int
  {
    if s == [] then 0 else 3 - s[0].pinged + Energy(s[1..])
  }

  predicate Late(s: seq<SearchNode>, now: int)
  {
    forall n :: n in s ==> n.requestTime < now - 15
  }

  /** Steps more than 15 s apart. */
  predicate Spaced(times: seq<int>, stepTime: int)
  {
    && (times != [] ==> stepTime < times[0] - 15)
    && forall i :: 0 < i < |times| ==> times[i - 1] < times[i] - 15
  }

  predicate Quiet(s: seq<SearchNode>, times: seq<int>)
  {
    times != [] ==> Late(s, times[0])
  }

  lemma {:induction false} EnergyBound(s: seq<SearchNode>)
    requires PingsInRange(s)
    ensures 0 <= Energy(s) <= 3 * |s|
  {
    if s != [] {
      assert s[0] in s;
      EnergyBound(s[1..]);
    }
  }

  lemma {:induction false} AskedEnergy(s: seq<SearchNode>, now: int, limit: nat)
    ensures Energy(Asked(s, now, limit)) <= Energy(s)
    ensures limit > 0 && (exists n :: n in s && Askable(n, now)) ==> Energy(Asked(s, now, limit)) < Energy(s)
  {
    if s != [] && limit > 0 {
      var t := s[1..];
      assert s == [s[0]] + t;
      AskedEnergy(t, now, limit - 1);
      AskedEnergy(t, now, limit);
    }
  }

  lemma {:induction false} AnnouncedEnergy(s: seq<SearchNode>, now: int, limit: nat)
    ensures Energy(Announced(s, now, limit)) <= Energy(s)
    ensures !AllAcked(s, limit) ==> Energy(Announced(s, now, limit)) < Energy(s)
  {
    if s != [] && limit > 0 {
      AnnouncedEnergy(s[1..], now, limit - 1);
      AnnouncedEnergy(s[1..], now, limit);
    }
  }

  lemma {:induction false} SomeoneSilent(s: seq<SearchNode>, limit: nat)
    requires !AllReplied(s, limit)
    ensures exists n :: n in s && n.pinged < 3 && !n.replied
  {
    var t := s[1..];
    if s[0].pinged >= 3 {
      SomeoneSilent(t, limit);
      var n :| n in t && n.pinged < 3 && !n.replied;
      assert n in s;
    } else if !s[0].replied {
      assert s[0] in s;
    } else {
      SomeoneSilent(t, limit - 1);
      var n :| n in t && n.pinged < 3 && !n.replied;
      assert n in s;
    }
  }

  /** Every unfinished step, through queries and announcements, uses up energy. */
  lemma EnergyDrops(s: seq<SearchNode>, port: nat, stepTime: int, now: int)
    requires stepTime < now - 15 && Late(s, now)
    ensures Energy(StepResult(s, port, stepTime, now)) <= Energy(s)
    ensures !(AllReplied(s, 8) && (port == 0 || AllAcked(s, 8))) ==>
      Energy(StepResult(s, port, stepTime, now)) < Energy(s)
  {
    AskedEnergy(s, now, 3);
    AnnouncedEnergy(s, now, 8);
    if !AllReplied(s, 8) {
      SomeoneSilent(s, 8);
      var n :| n in s && n.pinged < 3 && !n.replied;
      assert Askable(n, now);
    }
  }

  lemma {:induction false} AskedTimes(s: seq<SearchNode>, now: int, limit: nat)
    ensures forall n :: n in Asked(s, now, limit) ==>
      n.requestTime == now || exists m :: m in s && m.requestTime == n.requestTime
  {
    if s != [] && limit > 0 {
      AskedTimes(s[1..], now, limit - 1);
      AskedTimes(s[1..], now, limit);
      TimesTail(s, Asked(s, now, limit), now);
    }
  }

  lemma TimesTail(s: seq<SearchNode>, r: seq<SearchNode>, now: int)
    requires s != [] && r != [] && (r[0].requestTime == now || r[0].requestTime == s[0].requestTime)
    requires forall n :: n in r[1..] ==>
      n.requestTime == now || exists m :: m in s[1..] && m.requestTime == n.requestTime
    ensures forall n :: n in r ==> n.requestTime == now || exists m :: m in s && m.requestTime == n.requestTime
  {
    assert r == [r[0]] + r[1..] && s == [s[0]] + s[1..];
    assert s[0] in s;
  }

  lemma {:induction false} AnnouncedTimes(s: seq<SearchNode>, now: int, limit: nat)
    ensures forall n :: n in Announced(s, now, limit) ==>
      n.requestTime == now || exists m :: m in s && m.requestTime == n.requestTime
  {
    if s != [] && limit > 0 {
      AnnouncedTimes(s[1..], now, limit - 1);
      AnnouncedTimes(s[1..], now, limit);
      TimesTail(s, Announced(s, now, limit), now);
    }
  }

  /** After a step the next scheduled one is late enough again. */
  lemma NextLate(s: seq<SearchNode>, port: nat, stepTime: int, times: seq<int>, i: nat)
    requires i < |times| && Late(s, times[i]) && stepTime < times[i] - 15 && exists t0 :: Spaced(times, t0)
    ensures i + 1 < |times| ==>
      times[i] < times[i + 1] - 15 && Late(StepResult(s, port, stepTime, times[i]), times[i + 1])
  {
    AskedTimes(s, times[i], 3);
    AnnouncedTimes(s, times[i], 8);
  }
}
