/** `send_ping`, `send_pong` and their siblings, up to the call of `dht_send`. */
module DhtSend {
  import opened Bytes
  import opened ModArith
  import opened Counting
  import opened Options
  import opened Ids
  import opened Bencode
  import opened BencodeContainers
  import opened DhtWire
  import opened DhtMessages
  import opened DhtStorage

  const SIZE: nat := 512

  /** `my_v` after its five bytes of announcement, if the node has a version. */
  predicate GoodVersion(v: Option<seq<Byte>>)
  {
    v.Some? ==> |v.value| == 4
  }

  /** `"<head>%d:"`, the transaction id, `ADD_V` and the end. */
  method PrintTail(p: Printer, head: string, tid: seq<Byte>, v: Option<seq<Byte>>, end: string) returns (ok: bool)
    requires p.Valid() && head != "" && end != "" && p.rest == TailBytes(head, tid, v, end)
    modifies p, p.buf
    ensures ok ==> p.Valid() && p.rest == [] && (p.i == p.buf.Length ==> p.clipped)
    ensures !ok ==> |p.full| > p.buf.Length
  {
    hide Text, VersionBytes, Decimal;
    ok := p.Print(Text(head) + Decimal(|tid|) + [COLON], tid + (VersionBytes(v) + Text(end)));
    if !ok {
      return;
    }
    ok := p.Copy(tid, VersionBytes(v) + Text(end));
    if !ok {
      return;
    }
    VersionNone(v, Text(end));
    if v.Some? {
      ok := p.Copy(VersionBytes(v), Text(end));
      if !ok {
        return;
      }
    }
    assert Text(end) + [] == Text(end);
    ok := p.Print(Text(end), []);
  }

  lemma VersionNone(v: Option<seq<Byte>>, rest: seq<Byte>)
    ensures v.None? ==> VersionBytes(v) + rest == rest
  {
    assert [] + rest == rest;
  }

  /** The first two pieces: the opening and our id. */
  method PrintId(p: Printer, open_: string, myid: Id, ghost more: seq<Byte>) returns (ok: bool)
    requires p.Valid() && open_ != "" && p.rest == Text(open_) + (myid + more)
    modifies p, p.buf
    ensures ok ==> p.Valid() && p.rest == more
    ensures !ok ==> |p.full| > p.buf.Length
  {
    hide Text;
    ok := p.Print(Text(open_), myid + more);
    if !ok {
      return;
    }
    ok := p.Copy(myid, more);
  }

  // -------------------------------------------------------- send_ping

  function PingQuery(myid: Id, tid: seq<Byte>, v: Option<seq<Byte>>): Obj
  {
    Query("ping", [Arg("id", myid)] + [], tid, v)
  }

  lemma PingWire(myid: Id, tid: seq<Byte>, v: Option<seq<Byte>>)
    requires GoodVersion(v)
    ensures Encode(PingQuery(myid, tid, v))
      == Text("d1:ad2:id20:") + (myid + TailBytes("e1:q4:ping1:t", tid, v, "1:y1:qe"))
  {
    ShortBstr("ping", "4:ping");
    assert "e1:q4:ping1:t" == "e1:q" + "4:ping" + "1:t";
    IdQuery("ping", "4:ping", "e1:q4:ping1:t", myid, [], tid, v);
    NoMore(TailBytes("e1:q4:ping1:t", tid, v, "1:y1:qe"));
  }

  /** `send_ping`. */
  method SendPing(myid: Id, tid: seq<Byte>, v: Option<seq<Byte>>) returns (m: Option<seq<Byte>>)
    requires GoodVersion(v)
    ensures m == Outcome(Encode(PingQuery(myid, tid, v)), SIZE)
  {
    hide Text, TailBytes, Encode, PingQuery;
    PingWire(myid, tid, v);
    var p := new Printer(SIZE, Encode(PingQuery(myid, tid, v)));
    var ok := PrintId(p, "d1:ad2:id20:", myid, TailBytes("e1:q4:ping1:t", tid, v, "1:y1:qe"));
    if !ok {
      return None;
    }
    ok := PrintTail(p, "e1:q4:ping1:t", tid, v, "1:y1:qe");
    if !ok {
      return None;
    }
    m := p.Finish();
  }

  // -------------------------------------- send_pong, send_peer_announced

  function PongReply(myid: Id, tid: seq<Byte>, v: Option<seq<Byte>>): Obj
  {
    Reply([Arg("id", myid)] + [], tid, v)
  }

  lemma PongWire(myid: Id, tid: seq<Byte>, v: Option<seq<Byte>>)
    requires GoodVersion(v)
    ensures Encode(PongReply(myid, tid, v)) == Text("d1:rd2:id20:") + (myid + TailBytes("e1:t", tid, v, "1:y1:re"))
  {
    IdReply(myid, [], tid, v);
    NoMore(TailBytes("e1:t", tid, v, "1:y1:re"));
  }

  /** `send_pong` and `send_peer_announced`, which print the same. */
  method SendPong(myid: Id, tid: seq<Byte>, v: Option<seq<Byte>>) returns (m: Option<seq<Byte>>)
    requires GoodVersion(v)
    ensures m == Outcome(Encode(PongReply(myid, tid, v)), SIZE)
  {
    hide Text, TailBytes, Encode, PongReply;
    PongWire(myid, tid, v);
    var p := new Printer(SIZE, Encode(PongReply(myid, tid, v)));
    var ok := PrintId(p, "d1:rd2:id20:", myid, TailBytes("e1:t", tid, v, "1:y1:re"));
    if !ok {
      return None;
    }
    ok := PrintTail(p, "e1:t", tid, v, "1:y1:re");
    if !ok {
      return None;
    }
    m := p.Finish();
  }

  // -------------------------------------- send_find_node, send_get_peers

  /** Queries about an id: find_node with its target, get_peers with its hash. */
  function LookupQuery(name: string, key: string, myid: Id, target: Id, want: int, tid: seq<Byte>,
                       v: Option<seq<Byte>>): Obj
  {
    Query(name, [Arg("id", myid)] + ([Arg(key, target)] + WantArg(want)), tid, v)
  }

  /** What the two printers put around the ids. */
  datatype Lookup = Lookup(name: string, key: string, ename: string, keyHead: string, tailHead: string)

  const FIND_NODE: Lookup := Lookup("find_node", "target", "9:find_node", "6:target20:", "e1:q9:find_node1:t")
  const GET_PEERS: Lookup := Lookup("get_peers", "info_hash", "9:get_peers", "9:info_hash20:", "e1:q9:get_peers1:t")

  predicate Spells(l: Lookup, target: Id)
  {
    && EncodeBstr(Text(l.name)) == Text(l.ename) && l.tailHead == "e1:q" + l.ename + "1:t"
    && Text(l.keyHead) == EncodeBstr(Text(l.key)) + (Decimal(|target|) + [COLON])
    && l.keyHead != ""
  }

  lemma FindNodeSpells(target: Id)
    ensures Spells(FIND_NODE, target)
  {
    ShortBstr("find_node", "9:find_node");
    Head20("6:target", "target", "6:target20:", target);
    LookupHeads();
  }

  lemma LookupHeads()
    ensures "e1:q9:find_node1:t" == "e1:q" + "9:find_node" + "1:t"
    ensures "e1:q9:get_peers1:t" == "e1:q" + "9:get_peers" + "1:t"
  {
  }

  lemma GetPeersSpells(target: Id)
    ensures Spells(GET_PEERS, target)
  {
    ShortBstr("get_peers", "9:get_peers");
    Head20("9:info_hash", "info_hash", "9:info_hash20:", target);
    LookupHeads();
  }

  /** The optional piece for `want`. */
  function WantPiece(want: int): seq<Byte>
  {
    if want > 0 then WantBytes(want) else []
  }

  lemma LookupWire(l: Lookup, myid: Id, target: Id, want: int, tid: seq<Byte>, v: Option<seq<Byte>>)
    requires GoodVersion(v) && Spells(l, target)
    ensures Encode(LookupQuery(l.name, l.key, myid, target, want, tid, v))
         == Text("d1:ad2:id20:")
           + (myid + (Text(l.keyHead) + (target + (WantPiece(want) + TailBytes(l.tailHead, tid, v, "1:y1:qe")))))
  {
    hide Text, EncodeBstr, Decimal, EncodeDict, TailBytes, WantBytes;
    IdQuery(l.name, l.ename, l.tailHead, myid, [Arg(l.key, target)] + WantArg(want), tid, v);
    ArgThen(l.key, target, WantArg(want), Text(l.keyHead), TailBytes(l.tailHead, tid, v, "1:y1:qe"));
    WantSpelled(want);
  }

  /** `send_find_node` and `send_get_peers` after their names are fixed. */
  method SendLookup(l: Lookup, myid: Id, target: Id, want: int, tid: seq<Byte>, v: Option<seq<Byte>>)
    returns (m: Option<seq<Byte>>)
    requires GoodVersion(v) && Spells(l, target)
    ensures m == Outcome(Encode(LookupQuery(l.name, l.key, myid, target, want, tid, v)), SIZE)
  {
    hide Text, TailBytes, Encode, LookupQuery, EncodeBstr, Decimal, WantPiece, WantBytes;
    LookupWire(l, myid, target, want, tid, v);
    var p := new Printer(SIZE, Encode(LookupQuery(l.name, l.key, myid, target, want, tid, v)));
    ghost var r1 := TailBytes(l.tailHead, tid, v, "1:y1:qe");
    ghost var r2 := WantPiece(want) + r1;
    var ok := PrintId(p, "d1:ad2:id20:", myid, Text(l.keyHead) + (target + r2));
    if !ok {
      return None;
    }
    ok := PrintId(p, l.keyHead, target, r2);
    if !ok {
      return None;
    }
    WantIs(want, r1);
    if want > 0 {
      ok := p.Print(WantBytes(want), r1);
      if !ok {
        return None;
      }
    }
    ok := PrintTail(p, l.tailHead, tid, v, "1:y1:qe");
    if !ok {
      return None;
    }
    m := p.Finish();
  }

  lemma WantIs(want: int, rest: seq<Byte>)
    ensures want > 0 ==> WantPiece(want) == WantBytes(want) && WantBytes(want) != []
    ensures want <= 0 ==> WantPiece(want) + rest == rest
  {
    assert [] + rest == rest;
  }

  /** `send_find_node`. */
  method SendFindNode(myid: Id, target: Id, want: int, tid: seq<Byte>, v: Option<seq<Byte>>)
    returns (m: Option<seq<Byte>>)
    requires GoodVersion(v)
    ensures m == Outcome(Encode(LookupQuery("find_node", "target", myid, target, want, tid, v)), SIZE)
  {
    hide Spells;
    FindNodeSpells(target);
    m := SendLookup(FIND_NODE, myid, target, want, tid, v);
  }

  /** `send_get_peers`. */
  method SendGetPeers(myid: Id, hash: Id, want: int, tid: seq<Byte>, v: Option<seq<Byte>>)
    returns (m: Option<seq<Byte>>)
    requires GoodVersion(v)
    ensures m == Outcome(Encode(LookupQuery("get_peers", "info_hash", myid, hash, want, tid, v)), SIZE)
  {
    hide Spells;
    GetPeersSpells(hash);
    m := SendLookup(GET_PEERS, myid, hash, want, tid, v);
  }

  // -------------------------------------------------- send_announce_peer

  function AnnounceArgs(hash: Id, port: nat, token: seq<Byte>): seq<Entry>
  {
    [Arg("info_hash", hash)] + ([Entry(Text("port"), Int(port))] + ([Arg("token", token)] + []))
  }

  function AnnounceQuery(myid: Id, hash: Id, port: nat, token: seq<Byte>, tid: seq<Byte>, v: Option<seq<Byte>>): Obj
  {
    Query("announce_peer", [Arg("id", myid)] + AnnounceArgs(hash, port, token), tid, v)
  }

  /** `"4:porti%ue5:token%d:"`. */
  function PortPiece(port: nat, token: seq<Byte>): seq<Byte>
  {
    Text("4:porti") + Decimal(port) + Text("e5:token") + Decimal(|token|) + [COLON]
  }

  lemma PortSpelled(port: nat, token: seq<Byte>, rest: seq<Byte>)
    ensures EncodeDict([Entry(Text("port"), Int(port))] + ([Arg("token", token)] + [])) + rest
      == PortPiece(port, token) + (token + rest)
  {
    ShortBstr("port", "4:port");
    ShortBstr("token", "5:token");
    TextJoin("4:port", "i");
    assert "4:port" + "i" == "4:porti";
    TextJoin("e", "5:token");
    assert "e" + "5:token" == "e5:token";
    assert Text("i") == [CHAR_I] && Text("e") == [CHAR_E];
    hide Text, EncodeBstr, Decimal, EncodeDict;
    EntryThen(Entry(Text("port"), Int(port)), [Arg("token", token)] + [], rest);
    ArgThen("token", token, [], Text("5:token") + (Decimal(|token|) + [COLON]), rest);
    NoMore(rest);
    assert Encode(Int(port)) == [CHAR_I] + Decimal(port) + [CHAR_E];
    PortGroup(Text("4:port"), [CHAR_I], Decimal(port), [CHAR_E], Text("5:token"), Decimal(|token|) + [COLON],
              token + rest);
    Regroup(Text("4:porti") + Decimal(port) + Text("e5:token"), Decimal(|token|), [COLON]);
  }

  lemma PortGroup(a: seq<Byte>, i: seq<Byte>, n: seq<Byte>, e: seq<Byte>, t: seq<Byte>, l: seq<Byte>, rest: seq<Byte>)
    ensures a + ((i + n + e) + ((t + l) + rest)) == ((a + i) + n + (e + t) + l) + rest
  {
    Regroup(t, l, rest);
    assert (a + i) + n + (e + t) + l + rest == a + (i + n + e + (t + (l + rest)));
  }

  lemma AnnounceWire(myid: Id, hash: Id, port: nat, token: seq<Byte>, tid: seq<Byte>, v: Option<seq<Byte>>)
    requires GoodVersion(v)
    ensures Encode(AnnounceQuery(myid, hash, port, token, tid, v))
         == Text("d1:ad2:id20:") + (myid + (Text("9:info_hash20:") + (hash + (PortPiece(port, token)
            + (token + TailBytes("e1:q13:announce_peer1:t", tid, v, "1:y1:qe"))))))
  {
    LongName();
    GetPeersSpells(hash);
    assert "e1:q13:announce_peer1:t" == "e1:q" + "13:announce_peer" + "1:t";
    hide Text, EncodeBstr, Decimal, EncodeDict, TailBytes, PortPiece;
    var rest := TailBytes("e1:q13:announce_peer1:t", tid, v, "1:y1:qe");
    IdQuery("announce_peer", "13:announce_peer", "e1:q13:announce_peer1:t", myid, AnnounceArgs(hash, port, token), tid,
      v);
    ArgThen("info_hash", hash, [Entry(Text("port"), Int(port))] + ([Arg("token", token)] + []), Text("9:info_hash20:"),
      rest);
    PortSpelled(port, token, rest);
  }

  lemma LongName()
    ensures EncodeBstr(Text("announce_peer")) == Text("13:announce_peer")
  {
    TextJoin("13:", "announce_peer");
    assert "13:" + "announce_peer" == "13:announce_peer";
    assert Decimal(13) == [DIGIT_0 + 1, DIGIT_0 + 3] by { assert Decimal(1) == [DIGIT_0 + 1]; }
    assert Text("13:") == [DIGIT_0 + 1, DIGIT_0 + 3] + [COLON];
  }

  /** `send_announce_peer`. */
  method SendAnnouncePeer(myid: Id, hash: Id, port: nat, token: seq<Byte>, tid: seq<Byte>, v: Option<seq<Byte>>)
    returns (m: Option<seq<Byte>>)
    requires GoodVersion(v)
    ensures m == Outcome(Encode(AnnounceQuery(myid, hash, port, token, tid, v)), SIZE)
  {
    hide Text, TailBytes, Encode, AnnounceQuery, PortPiece;
    AnnounceWire(myid, hash, port, token, tid, v);
    var p := new Printer(SIZE, Encode(AnnounceQuery(myid, hash, port, token, tid, v)));
    ghost var r1 := TailBytes("e1:q13:announce_peer1:t", tid, v, "1:y1:qe");
    ghost var r2 := PortPiece(port, token) + (token + r1);
    var ok := PrintId(p, "d1:ad2:id20:", myid, Text("9:info_hash20:") + (hash + r2));
    if !ok {
      return None;
    }
    ok := PrintId(p, "9:info_hash20:", hash, r2);
    if !ok {
      return None;
    }
    PortNonempty(port, token);
    ok := p.Print(PortPiece(port, token), token + r1);
    if !ok {
      return None;
    }
    ok := p.Copy(token, r1);
    if !ok {
      return None;
    }
    ok := PrintTail(p, "e1:q13:announce_peer1:t", tid, v, "1:y1:qe");
    if !ok {
      return None;
    }
    m := p.Finish();
  }

  lemma PortNonempty(port: nat, token: seq<Byte>)
    ensures PortPiece(port, token) != []
  {
  }

  // --------------------------------------------------- send_nodes_peers

  /** Peers picked from a list in order: at most `limit`, of one address length. */
  function Select(s: seq<Peer>, len: nat, limit: nat): seq<Peer>
  {
    if s == [] || limit == 0 then []
    else if |s[0].ip| == len then [s[0]] + Select(s[1..], len, limit - 1)
    else Select(s[1..], len, limit)
  }

  /** The stored peers as a circular list, from j0 on. */
  function Rotated(s: seq<Peer>, j0: nat): seq<Peer>
    requires j0 <= |s|
  {
    s[j0..] + s[..j0]
  }

  /** Address and port as the reply carries them. */
  function PeerBytes(p: Peer): seq<Byte>
  {
    p.ip + [p.port / 256 % 256, p.port % 256]
  }

  /** What is read back from them. */
  lemma PeerReads(p: Peer)
    requires p.port < 0x1_0000
    ensures PeerBytes(p)[..|p.ip|] == p.ip && BigEndian(PeerBytes(p)[|p.ip|..]) == p.port
  {
    PortReads(p.port);
    assert PeerBytes(p)[|p.ip|..] == [p.port / 256 % 256, p.port % 256];
  }

  /** Peers are the same exactly if they are sent as the same bytes. */
  lemma SamePeerBytes(p: Peer, q: Peer)
    requires p.port < 0x1_0000 && q.port < 0x1_0000
    ensures SamePeer(p, q) <==> PeerBytes(p) == PeerBytes(q)
  {
    PeerReads(p);
    PeerReads(q);
  }

  function Values(s: seq<Peer>): (l: seq<Obj>)
    ensures |l| == |s|
  {
    seq(|s|, i requires 0 <= i < |s| => Bstr(PeerBytes(s[i])))
  }

  function OptArg(key: string, s: seq<Byte>): seq<Entry>
  {
    if s == [] then [] else [Arg(key, s)]
  }

  /** The peers served: a slice of at most 50, from a random place on. */
  function Served(peers: seq<Peer>, j0: nat, af4: bool): seq<Peer>
    requires j0 <= |peers|
  {
    Select(Rotated(peers, j0), if af4 then 4 else 16, 50)
  }

  function ValuesArg(peers: seq<Peer>, j0: nat, af4: bool): seq<Entry>
    requires j0 <= |peers|
  {
    if peers == [] then [] else [Entry(Text("values"), List(Values(Served(peers, j0, af4))))]
  }

  /** What the reply says: our id, and whatever else there is to tell. */
  function NodesArgs(myid: Id, nodes: seq<Byte>, nodes6: seq<Byte>, token: seq<Byte>, peers: seq<Peer>, j0: nat,
                     af4: bool): seq<Entry>
    requires j0 <= |peers|
  {
    [Arg("id", myid)]
    + (OptArg("nodes", nodes) + (OptArg("nodes6", nodes6) + (OptArg("token", token) + ValuesArg(peers, j0, af4))))
  }

  function NodesReply(myid: Id, nodes: seq<Byte>, nodes6: seq<Byte>, token: seq<Byte>, peers: seq<Peer>, j0: nat,
                      af4: bool,
                      tid: seq<Byte>, v: Option<seq<Byte>>): Obj
    requires j0 <= |peers|
  {
    Reply(NodesArgs(myid, nodes, nodes6, token, peers, j0, af4), tid, v)
  }

  /** Each stored peer is served at most once, at most 50 are. */
  lemma {:induction false} SelectOnce(s: seq<Peer>, len: nat, limit: nat)
    ensures |Select(s, len, limit)| <= limit
    ensures forall p :: p in Select(s, len, limit) ==> p in s && |p.ip| == len
    ensures DistinctPeers(s) ==> DistinctPeers(Select(s, len, limit))
    decreases s
  {
    if s != [] && limit > 0 {
      var t := s[1..];
      assert s == [s[0]] + t;
      SelectOnce(t, len, limit - 1);
      SelectOnce(t, len, limit);
      if DistinctPeers(s) {
        forall i, j | 0 <= i < j < |t| ensures !SamePeer(t[i], t[j]) {
          assert t[i] == s[i + 1] && t[j] == s[j + 1];
        }
        forall p | p in t ensures !SamePeer(s[0], p) {
          var k :| 0 <= k < |t| && t[k] == p;
          assert s[k + 1] == p;
        }
      }
    }
  }

  /** Which peers are of this address length. */
  function LengthFlags(s: seq<Peer>, len: nat): (f: seq<bool>)
    ensures |f| == |s|
  {
    seq(|s|, i requires 0 <= i < |s| => |s[i].ip| == len)
  }

  /** Exactly the first `limit` of them are picked, in their order. */
  lemma {:induction false} SelectCounts(s: seq<Peer>, len: nat, limit: nat)
    ensures Picks(Select(s, len, limit), s, First(LengthFlags(s, len), limit))
    decreases s
  {
    hide Picks, First;
    if s == [] || limit == 0 {
      NoneFirst(LengthFlags(s, len), limit);
      PicksNothing(s, First(LengthFlags(s, len), limit));
    } else {
      var p, t := s[0], s[1..];
      var b, rest := |p.ip| == len, if |p.ip| == len then limit - 1 else limit;
      SelectCounts(t, len, rest);
      assert s == [p] + t && LengthFlags(s, len) == [b] + LengthFlags(t, len);
      FirstCons(b, LengthFlags(t, len), limit);
      PicksCons(Select(t, len, rest), p, t, b, First(LengthFlags(t, len), rest));
    }
  }

  /** The circular slice: its candidates in order are the stored peers from j0 on,
      round to the one before, and the first 50 of the family are served. */
  lemma ServedCounts(peers: seq<Peer>, j0: nat, af4: bool)
    requires j0 < |peers|
    ensures var len := if af4 then 4 else 16;
            exists order: seq<Peer> ::
              && |order| == |peers| && (forall t :: 0 <= t < |peers| ==> order[t] == peers[(j0 + t) % |peers|])
              && Picks(Served(peers, j0, af4), order, First(LengthFlags(order, len), 50))
  {
    hide Picks, First, Select, LengthFlags, Rotated;
    var order := Rotated(peers, j0);
    RotatedAt(peers, j0);
    SelectCounts(order, if af4 then 4 else 16, 50);
  }

  lemma RotatedOnce(s: seq<Peer>, j0: nat)
    requires j0 <= |s| && DistinctPeers(s)
    ensures DistinctPeers(Rotated(s, j0)) && forall p :: p in Rotated(s, j0) <==> p in s
  {
    var r := Rotated(s, j0);
    assert s == s[..j0] + s[j0..];
    forall i, j | 0 <= i < j < |r| ensures !SamePeer(r[i], r[j]) {
      var a, b := if i < |s| - j0 then i + j0 else i - (|s| - j0), if j < |s| - j0 then j + j0 else j - (|s| - j0);
      assert r[i] == s[a] && r[j] == s[b];
      assert !SamePeer(s[if a < b then a else b], s[if a < b then b else a]);
    }
  }

  /** The slice of `send_nodes_peers`. */
  lemma ServedOnce(peers: seq<Peer>, j0: nat, af4: bool)
    requires j0 <= |peers| && DistinctPeers(peers)
    ensures |Served(peers, j0, af4)| <= 50 && DistinctPeers(Served(peers, j0, af4))
    ensures forall p :: p in Served(peers, j0, af4) ==> p in peers && |p.ip| == if af4 then 4 else 16
  {
    hide DistinctPeers, Select, Rotated;
    RotatedOnce(peers, j0);
    SelectOnce(Rotated(peers, j0), if af4 then 4 else 16, 50);
  }

  /** `"<head>%d:"` and the bytes, unless there are none. */
  function OptBytes(head: string, s: seq<Byte>, rest: seq<Byte>): seq<Byte>
  {
    if s == [] then rest else (Text(head) + Decimal(|s|) + [COLON]) + (s + rest)
  }

  lemma OptThen(key: string, head: string, s: seq<Byte>, more: seq<Entry>, rest: seq<Byte>)
    requires EncodeBstr(Text(key)) == Text(head)
    ensures EncodeDict(OptArg(key, s) + more) + rest == OptBytes(head, s, EncodeDict(more) + rest)
  {
    hide EncodeDict, Text, EncodeBstr, Decimal;
    if s == [] {
      assert OptArg(key, s) + more == more;
    } else {
      Regroup(Text(head), Decimal(|s|), [COLON]);
      ArgThen(key, s, more, Text(head) + Decimal(|s|) + [COLON], rest);
    }
  }

  /** The peers entry and what follows it. */
  function PeersBytes(sel: seq<Peer>, rest: seq<Byte>): seq<Byte>
  {
    EncodeList(Values(sel)) + (Text("e") + rest)
  }

  lemma ValuesThen(peers: seq<Peer>, j0: nat, af4: bool, rest: seq<Byte>)
    requires j0 <= |peers|
    ensures EncodeDict(ValuesArg(peers, j0, af4)) + rest
         == if peers == [] then rest else Text("6:valuesl") + PeersBytes(Served(peers, j0, af4), rest)
  {
    if peers == [] {
      NoMore(rest);
    } else {
      ShortBstr("values", "6:values");
      TextJoin("6:values", "l");
      assert "6:values" + "l" == "6:valuesl";
      assert Text("l") == [CHAR_L] && Text("e") == [CHAR_E];
      hide Text, EncodeDict, EncodeList, Values, Served;
      var l := EncodeList(Values(Served(peers, j0, af4)));
      OneEntry(Entry(Text("values"), List(Values(Served(peers, j0, af4)))));
      ListIs(Values(Served(peers, j0, af4)));
      ValuesGroup(Text("6:values"), [CHAR_L], l, [CHAR_E], rest);
    }
  }

  lemma ValuesGroup(k: seq<Byte>, o: seq<Byte>, l: seq<Byte>, e: seq<Byte>, rest: seq<Byte>)
    ensures (k + (o + l + e)) + rest == (k + o) + (l + (e + rest))
  {
  }

  /** The pieces of one peer: length, address, port. */
  function PeerPieces(q: Peer, len: nat, more: seq<Byte>): seq<Byte>
  {
    (Decimal(len + 2) + [COLON]) + (q.ip + ([q.port / 256 % 256, q.port % 256] + more))
  }

  lemma SelectStep(s: seq<Peer>, len: nat, limit: nat, rest: seq<Byte>)
    requires s != [] && limit > 0
    ensures |s[0].ip| != len ==> Select(s, len, limit) == Select(s[1..], len, limit)
    ensures |s[0].ip| == len ==>
      PeersBytes(Select(s, len, limit), rest) == PeerPieces(s[0], len, PeersBytes(Select(s[1..], len, limit - 1), rest))
  {
    if |s[0].ip| == len {
      var l := Select(s[1..], len, limit - 1);
      var x := Bstr(PeerBytes(s[0]));
      assert Values([s[0]] + l) == [x] + Values(l);
      assert ([x] + Values(l))[1..] == Values(l);
      hide Decimal, Text, Values, Select;
      assert EncodeList([x] + Values(l)) == EncodeBstr(PeerBytes(s[0])) + EncodeList(Values(l));
      hide EncodeList;
      PeerGroup(Decimal(len + 2), [COLON], s[0].ip, [s[0].port / 256 % 256, s[0].port % 256], EncodeList(Values(l)),
        Text("e") + rest);
    }
  }

  lemma PeerGroup(n: seq<Byte>, c: seq<Byte>, ip: seq<Byte>, port: seq<Byte>, l: seq<Byte>, rest: seq<Byte>)
    ensures ((n + c + (ip + port)) + l) + rest == (n + c) + (ip + (port + (l + rest)))
  {
  }

  lemma SelectEnd(s: seq<Peer>, len: nat, limit: nat, rest: seq<Byte>)
    requires s == [] || limit == 0
    ensures PeersBytes(Select(s, len, limit), rest) == Text("e") + rest
  {
    assert Values([]) == [];
    assert [] + (Text("e") + rest) == Text("e") + rest;
  }

  /** Everything after the token. */
  function AfterToken(peers: seq<Peer>, j0: nat, af4: bool, tid: seq<Byte>, v: Option<seq<Byte>>): seq<Byte>
    requires j0 <= |peers|
  {
    var tail := TailBytes("e1:t", tid, v, "1:y1:re");
    if peers == [] then tail else Text("6:valuesl") + PeersBytes(Served(peers, j0, af4), tail)
  }

  lemma NodesWire(myid: Id, nodes: seq<Byte>, nodes6: seq<Byte>, token: seq<Byte>, peers: seq<Peer>, j0: nat, af4: bool,
                  tid: seq<Byte>, v: Option<seq<Byte>>)
    requires GoodVersion(v) && j0 <= |peers|
    ensures Encode(NodesReply(myid, nodes, nodes6, token, peers, j0, af4, tid, v))
         == Text("d1:rd2:id20:")
           + (myid + OptBytes("5:nodes", nodes,
             OptBytes("6:nodes6", nodes6, OptBytes("5:token", token, AfterToken(peers, j0, af4, tid, v)))))
  {
    ShortBstr("nodes", "5:nodes");
    ShortBstr("nodes6", "6:nodes6");
    ShortBstr("token", "5:token");
    hide Text, EncodeDict, EncodeBstr, TailBytes, ValuesArg, PeersBytes, OptBytes, OptArg, Served;
    var r4 := TailBytes("e1:t", tid, v, "1:y1:re");
    var m3 := ValuesArg(peers, j0, af4);
    var m2 := OptArg("token", token) + m3;
    var m1 := OptArg("nodes6", nodes6) + m2;
    IdReply(myid, OptArg("nodes", nodes) + m1, tid, v);
    OptThen("nodes", "5:nodes", nodes, m1, r4);
    OptThen("nodes6", "6:nodes6", nodes6, m2, r4);
    OptThen("token", "5:token", token, m3, r4);
    ValuesThen(peers, j0, af4, r4);
  }

  /** `if(len > 0) { ... }` around a printed length and copied bytes. */
  method PrintOpt(p: Printer, head: string, s: seq<Byte>, ghost more: seq<Byte>) returns (ok: bool)
    requires p.Valid() && head != "" && p.rest == OptBytes(head, s, more)
    modifies p, p.buf
    ensures ok ==> p.Valid() && p.rest == more
    ensures !ok ==> |p.full| > p.buf.Length
  {
    hide Text, Decimal;
    ok := true;
    if |s| > 0 {
      ok := p.Print(Text(head) + Decimal(|s|) + [COLON], s + more);
      if !ok {
        return;
      }
      ok := p.Copy(s, more);
    }
  }

  /** One peer of the list. */
  method PrintPeer(p: Printer, q: Peer, len: nat, ghost more: seq<Byte>) returns (ok: bool)
    requires p.Valid() && p.rest == PeerPieces(q, len, more)
    modifies p, p.buf
    ensures ok ==> p.Valid() && p.rest == more
    ensures !ok ==> |p.full| > p.buf.Length
  {
    hide Decimal;
    var swapped: seq<Byte> := [q.port / 256 % 256, q.port % 256];
    ok := p.Print(Decimal(len + 2) + [COLON], q.ip + (swapped + more));
    if !ok {
      return;
    }
    ok := p.Copy(q.ip, swapped + more);
    if !ok {
      return;
    }
    ok := p.Copy(swapped, more);
  }

  /** The loop over the circular list of stored peers. */
  method PrintPeers(p: Printer, peers: seq<Peer>, j0: nat, af4: bool, ghost more: seq<Byte>) returns (ok: bool)
    requires p.Valid() && j0 < |peers| && p.rest == PeersBytes(Served(peers, j0, af4), more)
    modifies p, p.buf
    ensures ok ==> p.Valid() && p.rest == Text("e") + more
    ensures !ok ==> |p.full| > p.buf.Length
  {
    hide PeersBytes, PeerPieces, Decimal, Text, Select, Rotated, Standing;
    var len := if af4 then 4 else 16;
    ghost var order := Rotated(peers, j0);
    var j, k := j0, 0;
    ghost var t := 0;
    ok := true;
    StandingStart(peers, j0);
    while true
      invariant 0 <= t < |peers| == |order| && 0 <= k < 50 && 0 <= j < |peers| && Standing(peers, j0, j, t)
      invariant p.Valid() && p.rest == PeersBytes(Select(order[t..], len, 50 - k), more)
      decreases |peers| - t
    {
      StandingAt(peers, j0, j, t);
      SelectStep(order[t..], len, 50 - k, more);
      if |peers[j].ip| == len {
        ok := PrintPeer(p, peers[j], len, PeersBytes(Select(order[t + 1..], len, 50 - k - 1), more));
        if !ok {
          return;
        }
        k := k + 1;
      }
      StandingNext(peers, j0, j, t);
      j := (j + 1) % |peers|;
      t := t + 1;
      if !(j != j0 && k < 50) {
        break;
      }
    }
    SelectEnd(order[t..], len, 50 - k, more);
  }

  /** A sum of two indices, taken round a circle of n. */
  lemma Around(a: nat, b: nat, n: nat)
    requires a < n && b <= n
    ensures (a + b) % n == if a + b < n then a + b else a + b - n
  {
    if a + b < n { DivUnique(a + b, n, 0, a + b); } else { DivUnique(a + b, n, 1, a + b - n); }
  }

  lemma RotatedAt(peers: seq<Peer>, j0: nat)
    requires j0 < |peers|
    ensures |Rotated(peers, j0)| == |peers|
    ensures forall t :: 0 <= t < |peers| ==> Rotated(peers, j0)[t] == peers[(j0 + t) % |peers|]
  {
    forall t | 0 <= t < |peers| ensures Rotated(peers, j0)[t] == peers[(j0 + t) % |peers|] {
      Around(j0, t, |peers|);
    }
  }

  /** The index j of the loop after t peers. */
  predicate Standing(peers: seq<Peer>, j0: nat, j: nat, t: nat)
  {
    j0 < |peers| && t < |peers| && j == (j0 + t) % |peers|
  }

  lemma StandingStart(peers: seq<Peer>, j0: nat)
    requires j0 < |peers|
    ensures Standing(peers, j0, j0, 0)
    ensures |Rotated(peers, j0)| == |peers| && Rotated(peers, j0)[0..] == Rotated(peers, j0)
  {
    Around(j0, 0, |peers|);
  }

  lemma StandingAt(peers: seq<Peer>, j0: nat, j: nat, t: nat)
    requires Standing(peers, j0, j, t)
    ensures var order := Rotated(peers, j0);
            j < |peers| && |order| == |peers|
            && order[t..] != [] && order[t..][0] == peers[j] && order[t..][1..] == order[t + 1..]
  {
    RotatedAt(peers, j0);
  }

  lemma StandingNext(peers: seq<Peer>, j0: nat, j: nat, t: nat)
    requires Standing(peers, j0, j, t)
    ensures (j + 1) % |peers| < |peers| && ((j + 1) % |peers| == j0 <==> t + 1 == |peers|)
    ensures t + 1 < |peers| ==> Standing(peers, j0, (j + 1) % |peers|, t + 1)
  {
    NextPeer(j0, t, |peers|);
  }

  /** The index comes back to its start after one round and not before. */
  lemma NextPeer(j0: nat, t: nat, n: nat)
    requires j0 < n && t < n
    ensures ((j0 + t) % n + 1) % n == (j0 + (t + 1)) % n
    ensures (j0 + (t + 1)) % n == j0 <==> t + 1 == n
  {
    Around(j0, t, n);
    Around(j0, t + 1, n);
    Around((j0 + t) % n, 1, n);
  }

  const NODES_SIZE: nat := 2048

  /** Where the circular walk over the stored peers starts. */
  function StartAt(peers: seq<Peer>, rnd: nat): (j0: nat)
    ensures j0 <= |peers| && (peers != [] ==> j0 < |peers|)
  {
    if peers == [] then 0 else rnd % |peers|
  }

  /** `send_nodes_peers`, with the value its random() yields. */
  method SendNodesPeers(myid: Id, nodes: seq<Byte>, nodes6: seq<Byte>, af4: bool, peers: seq<Peer>, rnd: nat,
                        token: seq<Byte>, tid: seq<Byte>, v: Option<seq<Byte>>) returns (m: Option<seq<Byte>>)
    requires GoodVersion(v)
    ensures m == Outcome(Encode(NodesReply(myid, nodes, nodes6, token, peers, StartAt(peers, rnd), af4, tid, v)),
                         NODES_SIZE)
  {
    hide Text, TailBytes, Encode, NodesReply, OptBytes, PeersBytes, Served;
    var j0 := StartAt(peers, rnd);
    NodesWire(myid, nodes, nodes6, token, peers, j0, af4, tid, v);
    var p := new Printer(NODES_SIZE, Encode(NodesReply(myid, nodes, nodes6, token, peers, j0, af4, tid, v)));
    ghost var r4 := TailBytes("e1:t", tid, v, "1:y1:re");
    ghost var r3 := AfterToken(peers, j0, af4, tid, v);
    ghost var r2 := OptBytes("5:token", token, r3);
    ghost var r1 := OptBytes("6:nodes6", nodes6, r2);
    var ok := PrintId(p, "d1:rd2:id20:", myid, OptBytes("5:nodes", nodes, r1));
    if ok {
      ok := PrintOpt(p, "5:nodes", nodes, r1);
    }
    if ok {
      ok := PrintOpt(p, "6:nodes6", nodes6, r2);
    }
    if ok {
      ok := PrintOpt(p, "5:token", token, r3);
    }
    if ok && |peers| > 0 {
      ok := PrintValues(p, peers, j0, af4, r4);
    }
    if ok {
      ok := PrintTail(p, "e1:t", tid, v, "1:y1:re");
    }
    if !ok {
      return None;
    }
    m := p.Finish();
  }

  /** `"6:valuesl"`, the peers and `"e"`. */
  method PrintValues(p: Printer, peers: seq<Peer>, j0: nat, af4: bool, ghost more: seq<Byte>) returns (ok: bool)
    requires p.Valid() && j0 < |peers| && p.rest == Text("6:valuesl") + PeersBytes(Served(peers, j0, af4), more)
    modifies p, p.buf
    ensures ok ==> p.Valid() && p.rest == more
    ensures !ok ==> |p.full| > p.buf.Length
  {
    hide PeersBytes, Served, Text;
    ok := p.Print(Text("6:valuesl"), PeersBytes(Served(peers, j0, af4), more));
    if !ok {
      return;
    }
    ok := PrintPeers(p, peers, j0, af4, more);
    if !ok {
      return;
    }
    ok := p.Print(Text("e"), more);
  }

  // ----------------------------------------- what the messages mean

  /** Keys that start with different ASCII letters are in the order of these. */
  lemma ByFirstLetter(a: string, b: string)
    requires a != "" && b != "" && (a[0] as int) < (b[0] as int) < 128
    ensures Less(Text(a), Text(b))
  {
  }

  lemma InfoAfterId()
    ensures Less(Text("id"), Text("info_hash"))
  {
    var a, b := Text("id"), Text("info_hash");
    assert a[0] == b[0] && a[1..][0] == 100 && b[1..][0] == 110;
    assert Less(a[1..], b[1..]);
  }

  lemma PrefixLess(a: seq<Byte>, b: seq<Byte>)
    requires b != []
    ensures Less(a, a + b)
  {
    if a != [] {
      PrefixLess(a[1..], b);
      assert (a + b)[1..] == a[1..] + b;
    }
  }

  lemma Nodes6AfterNodes()
    ensures Less(Text("nodes"), Text("nodes6"))
  {
    TextJoin("nodes", "6");
    assert "nodes" + "6" == "nodes6";
    PrefixLess(Text("nodes"), Text("6"));
  }

  /** Two ordered parts, all of one below all of the other. */
  lemma OrderedJoin(a: seq<Entry>, b: seq<Entry>)
    requires Ordered(a) && Ordered(b) && forall x, y :: x in a && y in b ==> Less(x.key, y.key)
    ensures Ordered(a + b)
  {
    hide Less;
  }

  lemma TrailerOrdered(tid: seq<Byte>, v: Option<seq<Byte>>, kind: string)
    ensures Ordered(Trailer(tid, v, kind)) && forall e :: e in Trailer(tid, v, kind) ==>
      e.key in {Text("t"), Text("v"), Text("y")}
  {
    ByFirstLetter("t", "v");
    ByFirstLetter("t", "y");
    ByFirstLetter("v", "y");
    hide Less, Text;
  }

  /** Top-level keys of every query and reply ascend. */
  lemma EnvelopeOrdered(name: string, args: seq<Entry>, tid: seq<Byte>, v: Option<seq<Byte>>)
    ensures Ordered(Query(name, args, tid, v).dict) && Ordered(Reply(args, tid, v).dict)
  {
    ByFirstLetter("a", "q");
    ByFirstLetter("a", "t");
    ByFirstLetter("a", "v");
    ByFirstLetter("a", "y");
    ByFirstLetter("q", "t");
    ByFirstLetter("q", "v");
    ByFirstLetter("q", "y");
    ByFirstLetter("r", "t");
    ByFirstLetter("r", "v");
    ByFirstLetter("r", "y");
    TrailerOrdered(tid, v, "q");
    TrailerOrdered(tid, v, "r");
    hide Less, Text, Trailer;
    var q := Entry(Text("q"), Bstr(Text(name)));
    OrderedJoin([q], Trailer(tid, v, "q"));
    OrderedJoin([Entry(Text("a"), Dict(args))], [q] + Trailer(tid, v, "q"));
    OrderedJoin([Entry(Text("r"), Dict(args))], Trailer(tid, v, "r"));
  }

  /** So do the arguments of the two lookups, */
  lemma LookupArgsOrdered(key: string, myid: Id, target: Id, want: int)
    requires key == "target" || key == "info_hash"
    ensures Ordered([Arg("id", myid)] + ([Arg(key, target)] + WantArg(want)))
  {
    ByFirstLetter("id", "target");
    ByFirstLetter("id", "want");
    ByFirstLetter("target", "want");
    ByFirstLetter("info_hash", "want");
    InfoAfterId();
    hide Less, Text;
    OrderedJoin([Arg(key, target)], WantArg(want));
    OrderedJoin([Arg("id", myid)], [Arg(key, target)] + WantArg(want));
  }

  /** of announcements, */
  lemma AnnounceArgsOrdered(myid: Id, hash: Id, port: nat, token: seq<Byte>)
    ensures Ordered([Arg("id", myid)] + AnnounceArgs(hash, port, token))
  {
    ByFirstLetter("id", "port");
    ByFirstLetter("id", "token");
    ByFirstLetter("info_hash", "port");
    ByFirstLetter("info_hash", "token");
    ByFirstLetter("port", "token");
    InfoAfterId();
    hide Less, Text;
  }

  /** and of replies with nodes and peers. */
  lemma NodesArgsOrdered(myid: Id, nodes: seq<Byte>, nodes6: seq<Byte>, token: seq<Byte>, peers: seq<Peer>, j0: nat,
                         af4: bool)
    requires j0 <= |peers|
    ensures Ordered(NodesArgs(myid, nodes, nodes6, token, peers, j0, af4))
  {
    ByFirstLetter("id", "nodes");
    ByFirstLetter("id", "nodes6");
    ByFirstLetter("id", "token");
    ByFirstLetter("id", "values");
    ByFirstLetter("nodes", "token");
    ByFirstLetter("nodes", "values");
    ByFirstLetter("nodes6", "token");
    ByFirstLetter("nodes6", "values");
    ByFirstLetter("token", "values");
    Nodes6AfterNodes();
    hide Less, Text, Served, Ordered, OptArg;
    var d3 := ValuesArg(peers, j0, af4);
    ValuesOrdered(peers, j0, af4);
    OptOrdered("token", token, d3);
    var d2 := OptArg("token", token) + d3;
    OptOrdered("nodes6", nodes6, d2);
    var d1 := OptArg("nodes6", nodes6) + d2;
    OptOrdered("nodes", nodes, d1);
    IdOrdered(myid, OptArg("nodes", nodes) + d1);
  }

  lemma ValuesOrdered(peers: seq<Peer>, j0: nat, af4: bool)
    requires j0 <= |peers|
    ensures Ordered(ValuesArg(peers, j0, af4)) && forall e :: e in ValuesArg(peers, j0, af4) ==> e.key == Text("values")
  {
    hide Served;
  }

  lemma OptOrdered(key: string, s: seq<Byte>, d: seq<Entry>)
    requires Ordered(d) && forall e :: e in d ==> Less(Text(key), e.key)
    ensures Ordered(OptArg(key, s) + d) && forall e :: e in OptArg(key, s) + d ==> e.key == Text(key) || e in d
  {
    hide Less, Text;
    OrderedJoin(OptArg(key, s), d);
  }

  lemma IdOrdered(myid: Id, d: seq<Entry>)
    requires Ordered(d) && forall e :: e in d ==> Less(Text("id"), e.key)
    ensures Ordered([Arg("id", myid)] + d)
  {
    hide Less, Text;
    OrderedJoin([Arg("id", myid)], d);
  }

  lemma NoEmptyThen(e: Entry, d: seq<Entry>)
    ensures NoEmptyDict([e] + d) <==> e.key != [] && NoEmpty(e.val) && NoEmptyDict(d)
  {
    assert ([e] + d)[1..] == d;
  }

  lemma TrailerNoEmpty(tid: seq<Byte>, v: Option<seq<Byte>>, kind: string)
    requires GoodVersion(v) && kind != ""
    ensures NoEmptyDict(Trailer(tid, v, kind)) <==> tid != []
  {
    var y := Entry(Text("y"), Bstr(Text(kind)));
    NoEmptyThen(Entry(Text("t"), Bstr(tid)), Version(v) + [y]);
    NoEmptyThen(y, []);
    assert [y] + [] == [y];
    if v.Some? {
      NoEmptyThen(Entry(Text("v"), Bstr(v.value)), [y]);
    } else {
      assert Version(v) + [y] == [y];
    }
  }

  /** A query decodes to the intended dictionary, all of it consumed, exactly when
      it is shorter than the buffer and has a transaction id and full arguments. */
  lemma QueryUnderstood(name: string, args: seq<Entry>, tid: seq<Byte>, v: Option<seq<Byte>>, size: nat, m: seq<Byte>)
    requires GoodVersion(v) && name != "" && Outcome(Encode(Query(name, args, tid, v)), size) == Some(m)
    ensures Decode(m, 0) == Some((Query(name, args, tid, v), |m|))
       <==> tid != [] && NoEmptyDict(args) && |Encode(Query(name, args, tid, v))| < size
  {
    TrailerNoEmpty(tid, v, "q");
    hide Encode, Decode, NoEmptyDict, Trailer;
    var q := Entry(Text("q"), Bstr(Text(name)));
    NoEmptyThen(Entry(Text("a"), Dict(args)), [q] + Trailer(tid, v, "q"));
    NoEmptyThen(q, Trailer(tid, v, "q"));
    Understood(Query(name, args, tid, v).dict, size, m);
  }

  lemma ReplyUnderstood(args: seq<Entry>, tid: seq<Byte>, v: Option<seq<Byte>>, size: nat, m: seq<Byte>)
    requires GoodVersion(v) && Outcome(Encode(Reply(args, tid, v)), size) == Some(m)
    ensures Decode(m, 0) == Some((Reply(args, tid, v), |m|)) <==>
      tid != [] && NoEmptyDict(args) && |Encode(Reply(args, tid, v))| < size
  {
    TrailerNoEmpty(tid, v, "r");
    hide Encode, Decode, NoEmptyDict, Trailer;
    NoEmptyThen(Entry(Text("r"), Dict(args)), Trailer(tid, v, "r"));
    Understood(Reply(args, tid, v).dict, size, m);
  }

  /** The arguments are full: always for pings and lookups, */
  lemma LookupArgsFull(key: string, myid: Id, target: Id, want: int)
    requires key != ""
    ensures NoEmptyDict([Arg("id", myid)] + ([Arg(key, target)] + WantArg(want))) && NoEmptyDict([Arg("id", myid)] + [])
  {
    NoEmptyThen(Arg("id", myid), []);
    NoEmptyThen(Arg("id", myid), [Arg(key, target)] + WantArg(want));
    NoEmptyThen(Arg(key, target), WantArg(want));
    if want > 0 {
      var w := WantArg(want)[0];
      assert WantArg(want) == [w] + [];
      NoEmptyThen(w, []);
      WantFull(w.val.list);
    }
  }

  lemma WantFull(l: seq<Obj>)
    requires |l| <= 2 && forall o :: o in l ==> o.Bstr? && o.bstr != []
    ensures NoEmptyList(l)
  {
  }

  /** for announcements with a token, */
  lemma AnnounceArgsFull(myid: Id, hash: Id, port: nat, token: seq<Byte>)
    ensures NoEmptyDict([Arg("id", myid)] + AnnounceArgs(hash, port, token)) <==> token != []
  {
    NoEmptyThen(Arg("id", myid), AnnounceArgs(hash, port, token));
    NoEmptyThen(Arg("info_hash", hash), [Entry(Text("port"), Int(port))] + ([Arg("token", token)] + []));
    NoEmptyThen(Entry(Text("port"), Int(port)), [Arg("token", token)] + []);
    NoEmptyThen(Arg("token", token), []);
  }

  lemma {:induction false} ValuesFull(s: seq<Peer>)
    ensures NoEmptyList(Values(s))
    decreases s
  {
    if s != [] {
      assert Values(s)[1..] == Values(s[1..]);
      ValuesFull(s[1..]);
    }
  }

  lemma OptFull(key: string, s: seq<Byte>, d: seq<Entry>)
    requires key != ""
    ensures NoEmptyDict(OptArg(key, s) + d) <==> NoEmptyDict(d)
  {
    if s == [] {
      assert OptArg(key, s) + d == d;
    } else {
      NoEmptyThen(Arg(key, s), d);
    }
  }

  /** and always for replies with nodes and peers. */
  lemma NodesArgsFull(myid: Id, nodes: seq<Byte>, nodes6: seq<Byte>, token: seq<Byte>, peers: seq<Peer>, j0: nat,
                      af4: bool)
    requires j0 <= |peers|
    ensures NoEmptyDict(NodesArgs(myid, nodes, nodes6, token, peers, j0, af4))
  {
    hide Served, Values, Text;
    var d3 := ValuesArg(peers, j0, af4);
    var d2 := OptArg("token", token) + d3;
    var d1 := OptArg("nodes6", nodes6) + d2;
    NoEmptyThen(Arg("id", myid), OptArg("nodes", nodes) + d1);
    OptFull("nodes", nodes, d1);
    OptFull("nodes6", nodes6, d2);
    OptFull("token", token, d3);
    if peers != [] {
      ValuesFull(Served(peers, j0, af4));
      assert d3 == [d3[0]] + [];
      NoEmptyThen(d3[0], []);
    }
  }
}
