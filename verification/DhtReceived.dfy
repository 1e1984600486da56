/** Which messages of dht.c reach a peer as they were meant: lengths against the
    sizes of the buffers they are printed into. */
module DhtReceived {
  import opened Bytes
  import opened Options
  import opened Ids
  import opened Bencode
  import opened DhtWire
  import opened DhtMessages
  import opened DhtStorage
  import opened DhtSend

  /** What is sent for the dictionary o, from a buffer of this size, decodes to o
      with nothing left over. */
  predicate Received(o: Obj, size: nat)
  {
    var m := Outcome(Encode(o), size);
    m.Some? && Decode(m.value, 0) == Some((o, |m.value|))
  }

  lemma QueryReceived(name: string, args: seq<Entry>, tid: seq<Byte>, v: Option<seq<Byte>>, size: nat)
    requires GoodVersion(v) && name != ""
    ensures Received(Query(name, args, tid, v), size)
       <==> tid != [] && NoEmptyDict(args) && |Encode(Query(name, args, tid, v))| < size
  {
    hide Encode, Decode, NoEmptyDict, Query;
    var m := Outcome(Encode(Query(name, args, tid, v)), size);
    if m.Some? {
      QueryUnderstood(name, args, tid, v, size, m.value);
    }
  }

  lemma ReplyReceived(args: seq<Entry>, tid: seq<Byte>, v: Option<seq<Byte>>, size: nat)
    requires GoodVersion(v)
    ensures Received(Reply(args, tid, v), size)
       <==> tid != [] && NoEmptyDict(args) && |Encode(Reply(args, tid, v))| < size
  {
    hide Encode, Decode, NoEmptyDict, Reply;
    var m := Outcome(Encode(Reply(args, tid, v)), size);
    if m.Some? {
      ReplyUnderstood(args, tid, v, size, m.value);
    }
  }

  // ------------------------------------------------------------ lengths

  /** How many decimal digits a number below 100000 has. */
  function Digits(n: nat): nat
    requires n < 100000
  {
    if n < 10 then 1 else if n < 100 then 2 else if n < 1000 then 3 else if n < 10000 then 4 else 5
  }

  lemma {:induction false} DigitsCount(n: nat)
    requires n < 100000
    ensures |Decimal(n)| == Digits(n)
  {
    if n >= 10 { DigitsCount(n / 10); }
  }

  lemma {:induction false} DecimalGrows(m: nat, n: nat)
    requires m <= n
    ensures |Decimal(m)| <= |Decimal(n)|
    decreases n
  {
    if n >= 10 { DecimalGrows(m / 10, n / 10); }
  }

  function VersionLength(v: Option<seq<Byte>>): nat
  {
    if v.None? then 0 else 9
  }

  lemma TailLength(head: string, tid: seq<Byte>, v: Option<seq<Byte>>, end: string)
    requires GoodVersion(v)
    ensures |TailBytes(head, tid, v, end)| ==
            |head| + |Decimal(|tid|)| + 1 + |tid| + VersionLength(v) + |end|
  {
    hide Decimal;
  }

  lemma OptLength(head: string, s: seq<Byte>, rest: seq<Byte>)
    requires |s| < 1000
    ensures |OptBytes(head, s, rest)| <= |head| + 4 + |s| + |rest|
  {
    hide Decimal;
    DigitsCount(|s|);
  }

  /** Peers of one family take a fixed number of bytes each. */
  lemma {:induction false} PeersLength(sel: seq<Peer>, len: nat)
    requires len <= 16 && forall p :: p in sel ==> |p.ip| == len
    ensures |EncodeList(Values(sel))| <= |sel| * 21
    decreases sel
  {
    if sel != [] {
      var l := Values(sel);
      assert l[1..] == Values(sel[1..]);
      PeersLength(sel[1..], len);
      DigitsCount(|PeerBytes(sel[0])|);
      assert |EncodeBstr(PeerBytes(sel[0]))| <= 21;
    }
  }

  // ----------------------------------------------------- pings and pongs

  /** A ping arrives exactly when its transaction id is neither empty nor so long
      that the message fills the buffer. */
  lemma PingReceived(myid: Id, tid: seq<Byte>, v: Option<seq<Byte>>)
    requires GoodVersion(v)
    ensures Received(PingQuery(myid, tid, v), SIZE) <==> 1 <= |tid| <= 455 - VersionLength(v)
  {
    LookupArgsFull("target", myid, myid, 0);
    QueryReceived("ping", [Arg("id", myid)] + [], tid, v, SIZE);
    PingLength(myid, tid, v);
    TidBound(tid, 455 - VersionLength(v));
  }

  lemma PingLength(myid: Id, tid: seq<Byte>, v: Option<seq<Byte>>)
    requires GoodVersion(v)
    ensures |Encode(PingQuery(myid, tid, v))| == 53 + VersionLength(v) + |Decimal(|tid|)| + |tid|
  {
    PingWire(myid, tid, v);
    hide Encode, PingQuery, TailBytes;
    TailLength("e1:q4:ping1:t", tid, v, "1:y1:qe");
  }

  /** So does a pong. */
  lemma PongReceived(myid: Id, tid: seq<Byte>, v: Option<seq<Byte>>)
    requires GoodVersion(v)
    ensures Received(PongReply(myid, tid, v), SIZE) <==> 1 <= |tid| <= 464 - VersionLength(v)
  {
    LookupArgsFull("target", myid, myid, 0);
    ReplyReceived([Arg("id", myid)] + [], tid, v, SIZE);
    PongLength(myid, tid, v);
    TidBound(tid, 464 - VersionLength(v));
  }

  lemma PongLength(myid: Id, tid: seq<Byte>, v: Option<seq<Byte>>)
    requires GoodVersion(v)
    ensures |Encode(PongReply(myid, tid, v))| == 44 + VersionLength(v) + |Decimal(|tid|)| + |tid|
  {
    PongWire(myid, tid, v);
    hide Encode, PongReply, TailBytes;
    TailLength("e1:t", tid, v, "1:y1:re");
  }

  lemma TidBound(tid: seq<Byte>, most: nat)
    requires 100 <= most < 1000
    ensures |Decimal(|tid|)| + |tid| <= 3 + most <==> |tid| <= most
  {
    DigitsCount(100);
    DigitsCount(999);
    if |tid| <= most {
      DecimalGrows(|tid|, 999);
    } else {
      DecimalGrows(100, |tid|);
    }
  }

  // ---------------------------------------------- lookups, announcements

  /** The transaction ids dht.c makes have 4 bytes; a peer's may be this long. */
  const MAX_TID: nat := 255

  lemma ShortTail(head: string, tid: seq<Byte>, v: Option<seq<Byte>>, end: string)
    requires GoodVersion(v) && |tid| <= MAX_TID
    ensures |TailBytes(head, tid, v, end)| <= |head| + |end| + 268
  {
    hide TailBytes;
    TailLength(head, tid, v, end);
    DigitsCount(|tid|);
  }

  lemma LookupLength(l: Lookup, myid: Id, target: Id, want: int, tid: seq<Byte>, v: Option<seq<Byte>>)
    requires GoodVersion(v) && Spells(l, target) && |tid| <= MAX_TID
    ensures |Encode(LookupQuery(l.name, l.key, myid, target, want, tid, v))| <= 343 + |l.keyHead| + |l.tailHead|
  {
    LookupWire(l, myid, target, want, tid, v);
    hide Encode, LookupQuery, TailBytes;
    ShortTail(l.tailHead, tid, v, "1:y1:qe");
  }

  /** Every find_node query with a transaction id arrives, */
  lemma FindNodeReceived(myid: Id, target: Id, want: int, tid: seq<Byte>, v: Option<seq<Byte>>)
    requires GoodVersion(v) && |tid| <= MAX_TID
    ensures Received(LookupQuery("find_node", "target", myid, target, want, tid, v), SIZE) <==> tid != []
  {
    hide Spells, Encode, WantArg, NoEmptyDict;
    FindNodeSpells(target);
    LookupLength(FIND_NODE, myid, target, want, tid, v);
    LookupArgsFull("target", myid, target, want);
    QueryReceived("find_node", [Arg("id", myid)] + ([Arg("target", target)] + WantArg(want)), tid, v, SIZE);
  }

  /** and every get_peers query, */
  lemma GetPeersReceived(myid: Id, hash: Id, want: int, tid: seq<Byte>, v: Option<seq<Byte>>)
    requires GoodVersion(v) && |tid| <= MAX_TID
    ensures Received(LookupQuery("get_peers", "info_hash", myid, hash, want, tid, v), SIZE) <==> tid != []
  {
    hide Spells, Encode, WantArg, NoEmptyDict;
    GetPeersSpells(hash);
    LookupLength(GET_PEERS, myid, hash, want, tid, v);
    LookupArgsFull("info_hash", myid, hash, want);
    QueryReceived("get_peers", [Arg("id", myid)] + ([Arg("info_hash", hash)] + WantArg(want)), tid, v, SIZE);
  }

  lemma AnnounceLength(myid: Id, hash: Id, port: nat, token: seq<Byte>, tid: seq<Byte>, v: Option<seq<Byte>>)
    requires GoodVersion(v) && |tid| <= MAX_TID && |token| < 40 && port < 0x1_0000
    ensures |Encode(AnnounceQuery(myid, hash, port, token, tid, v))| < SIZE
  {
    AnnounceWire(myid, hash, port, token, tid, v);
    hide Encode, AnnounceQuery, TailBytes, Decimal;
    ShortTail("e1:q13:announce_peer1:t", tid, v, "1:y1:qe");
    DigitsCount(port);
    DigitsCount(|token|);
  }

  /** every announcement with a token as searches record them, */
  lemma AnnounceReceived(myid: Id, hash: Id, port: nat, token: seq<Byte>, tid: seq<Byte>, v: Option<seq<Byte>>)
    requires GoodVersion(v) && |tid| <= MAX_TID && |token| < 40 && port < 0x1_0000
    ensures Received(AnnounceQuery(myid, hash, port, token, tid, v), SIZE) <==> tid != [] && token != []
  {
    hide Encode, AnnounceArgs, NoEmptyDict;
    AnnounceLength(myid, hash, port, token, tid, v);
    AnnounceArgsFull(myid, hash, port, token);
    QueryReceived("announce_peer", [Arg("id", myid)] + AnnounceArgs(hash, port, token), tid, v, SIZE);
  }

  // ----------------------------------------------- nodes and peers

  lemma ServedLength(peers: seq<Peer>, j0: nat, af4: bool, rest: seq<Byte>)
    requires j0 <= |peers|
    ensures |PeersBytes(Served(peers, j0, af4), rest)| <= 1051 + |rest|
  {
    hide Select, Rotated, Values, EncodeList;
    SelectOnce(Rotated(peers, j0), if af4 then 4 else 16, 50);
    PeersLength(Served(peers, j0, af4), if af4 then 4 else 16);
  }

  lemma NodesLength(myid: Id, nodes: seq<Byte>, nodes6: seq<Byte>, token: seq<Byte>, peers: seq<Peer>, j0: nat,
                    af4: bool, tid: seq<Byte>, v: Option<seq<Byte>>)
    requires GoodVersion(v) && |tid| <= MAX_TID && j0 <= |peers|
    requires |nodes| <= 8 * 26 && |nodes6| <= 8 * 38 && |token| < 40
    ensures |Encode(NodesReply(myid, nodes, nodes6, token, peers, j0, af4, tid, v))| < NODES_SIZE
  {
    NodesWire(myid, nodes, nodes6, token, peers, j0, af4, tid, v);
    hide Encode, NodesReply, TailBytes, OptBytes, PeersBytes, Served;
    var r4 := TailBytes("e1:t", tid, v, "1:y1:re");
    var r3 := AfterToken(peers, j0, af4, tid, v);
    var r2 := OptBytes("5:token", token, r3);
    ShortTail("e1:t", tid, v, "1:y1:re");
    ServedLength(peers, j0, af4, r4);
    OptLength("5:token", token, r3);
    OptLength("6:nodes6", nodes6, r2);
    OptLength("5:nodes", nodes, OptBytes("6:nodes6", nodes6, r2));
  }

  /** and every reply: up to 8 nodes of each family, up to 50 of the stored peers. */
  lemma NodesReceived(myid: Id, nodes: seq<Byte>, nodes6: seq<Byte>, token: seq<Byte>, peers: seq<Peer>, j0: nat,
                      af4: bool, tid: seq<Byte>, v: Option<seq<Byte>>)
    requires GoodVersion(v) && |tid| <= MAX_TID && j0 <= |peers|
    requires |nodes| <= 8 * 26 && |nodes6| <= 8 * 38 && |token| < 40
    ensures Received(NodesReply(myid, nodes, nodes6, token, peers, j0, af4, tid, v), NODES_SIZE) <==> tid != []
  {
    hide Encode, NoEmptyDict, OptArg, ValuesArg;
    NodesLength(myid, nodes, nodes6, token, peers, j0, af4, tid, v);
    NodesArgsFull(myid, nodes, nodes6, token, peers, j0, af4);
    ReplyReceived(NodesArgs(myid, nodes, nodes6, token, peers, j0, af4), tid, v, NODES_SIZE);
  }

  // --------------------------------------------------- what goes wrong

  /** A ping that fills the buffer exactly: it is sent, with a NUL for its last
      letter, and does not decode. */
  lemma ClippedPing(myid: Id, tid: seq<Byte>)
    requires |tid| == 456
    ensures var m := Outcome(Encode(PingQuery(myid, tid, None)), SIZE);
            m.Some? && |m.value| == SIZE && m.value[SIZE - 1] == 0 && Decode(m.value, 0) == None
  {
    PingLength(myid, tid, None);
    DigitsCount(456);
    var o := PingQuery(myid, tid, None);
    var m := Outcome(Encode(o), SIZE);
    hide Encode, Decode;
    Clipped(o.dict, SIZE, m.value);
  }

  /** A ping without a transaction id is sent whole and does not decode. */
  lemma AnonymousPing(myid: Id)
    ensures var m := Outcome(Encode(PingQuery(myid, [], None)), SIZE);
            m == Some(Encode(PingQuery(myid, [], None))) && Decode(m.value, 0) == None
  {
    PingLength(myid, [], None);
    DigitsCount(0);
    var o := PingQuery(myid, [], None);
    hide Encode, Decode, NoEmptyDict;
    TrailerNoEmpty([], None, "q");
    var q := Entry(Text("q"), Bstr(Text("ping")));
    NoEmptyThen(Entry(Text("a"), Dict([Arg("id", myid)] + [])), [q] + Trailer([], None, "q"));
    NoEmptyThen(q, Trailer([], None, "q"));
    DictNoEmpty(o.dict);
    RoundTrip(Encode(o), 0, o);
  }
}
