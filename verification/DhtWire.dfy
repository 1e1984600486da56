/** The wire form of DHT messages: bencoded dictionaries spelled out piece by piece. */
module DhtWire {
  import opened Bytes
  import opened Options
  import opened Bencode

  /** The bytes of an ASCII text. */
  function Text(s: string): (r: seq<Byte>)
    ensures |r| == |s|
  {
    seq(|s|, i requires 0 <= i < |s| => s[i] as int % 256)
  }

  lemma TextJoin(a: string, b: string)
    ensures Text(a + b) == Text(a) + Text(b)
  {
  }

  /** A text that is the encoding of a short one. */
  lemma ShortBstr(s: string, e: string)
    requires 0 < |s| < 10 && |e| == |s| + 2 && e[0] as int == 48 + |s| && e[1] == ':' && e[2..] == s
    ensures EncodeBstr(Text(s)) == Text(e)
  {
    assert Decimal(|s|) == [DIGIT_0 + |s|];
    assert forall k :: 0 <= k < |s| ==> e[2..][k] == e[k + 2];
  }

  /** The examples of the bencoding section of BEP 3. */
  lemma Examples()
    ensures Encode(Bstr(Text("spam"))) == Text("4:spam")
    ensures Encode(Int(3)) == Text("i3e") && Encode(Int(-3)) == Text("i-3e") && Encode(Int(0)) == Text("i0e")
    ensures Encode(List([Bstr(Text("spam")), Bstr(Text("eggs"))])) == Text("l4:spam4:eggse")
    ensures Encode(Dict([Entry(Text("cow"), Bstr(Text("moo"))), Entry(Text("spam"), Bstr(Text("eggs")))]))
         == Text("d3:cow3:moo4:spam4:eggse")
  {
    ShortBstr("spam", "4:spam");
    ShortBstr("eggs", "4:eggs");
    ShortBstr("cow", "3:cow");
    ShortBstr("moo", "3:moo");
    IntExamples();
    hide Text, EncodeBstr;
    ListExample();
    DictExample();
    EncodeBstrIs(Text("spam"));
  }

  lemma IntExamples()
    ensures Encode(Int(3)) == Text("i3e") && Encode(Int(-3)) == Text("i-3e") && Encode(Int(0)) == Text("i0e")
  {
    assert Decimal(3) == [DIGIT_0 + 3] && Decimal(0) == [DIGIT_0];
  }

  lemma ListExample()
    requires EncodeBstr(Text("spam")) == Text("4:spam") && EncodeBstr(Text("eggs")) == Text("4:eggs")
    ensures Encode(List([Bstr(Text("spam")), Bstr(Text("eggs"))])) == Text("l4:spam4:eggse")
  {
    hide EncodeBstr;
    var a, b := Bstr(Text("spam")), Bstr(Text("eggs"));
    EncodeBstrIs(a.bstr);
    EncodeBstrIs(b.bstr);
    assert [a, b] == [a] + [b] && [a][1..] == [] && [b][1..] == [];
    ListJoin([a], [b]);
    assert EncodeList([a]) == Encode(a) && EncodeList([b]) == Encode(b);
    assert EncodeList([a, b]) == Text("4:spam") + Text("4:eggs");
  }

  lemma DictLiteral()
    ensures Text("d3:cow3:moo4:spam4:eggse")
         == [CHAR_D] + (Text("3:cow") + Text("3:moo") + (Text("4:spam") + Text("4:eggs"))) + [CHAR_E]
  {
  }

  lemma DictExample()
    requires EncodeBstr(Text("spam")) == Text("4:spam") && EncodeBstr(Text("eggs")) == Text("4:eggs")
    requires EncodeBstr(Text("cow")) == Text("3:cow") && EncodeBstr(Text("moo")) == Text("3:moo")
    ensures Encode(Dict([Entry(Text("cow"), Bstr(Text("moo"))), Entry(Text("spam"), Bstr(Text("eggs")))]))
         == Text("d3:cow3:moo4:spam4:eggse")
  {
    hide EncodeBstr, Text;
    DictLiteral();
    var a, b := Entry(Text("cow"), Bstr(Text("moo"))), Entry(Text("spam"), Bstr(Text("eggs")));
    EncodeBstrIs(a.val.bstr);
    EncodeBstrIs(b.val.bstr);
    OneEntry(b);
    EntryThen(a, [b], []);
    assert [a, b] == [a] + [b];
    assert EncodeDict([b]) + [] == EncodeDict([b]) && EncodeDict([a, b]) + [] == EncodeDict([a, b]);
    assert EncodeDict([a, b]) == Text("3:cow") + Text("3:moo") + (Text("4:spam") + Text("4:eggs"));
  }

  // ---------------------------------------------- rightward spelling

  lemma Regroup(a: seq<Byte>, b: seq<Byte>, c: seq<Byte>)
    ensures (a + b) + c == a + (b + c)
  {
  }

  lemma DictThen(d: seq<Entry>, rest: seq<Byte>)
    ensures Encode(Dict(d)) + rest == [CHAR_D] + (EncodeDict(d) + ([CHAR_E] + rest))
  {
    Regroup([CHAR_D] + EncodeDict(d), [CHAR_E], rest);
    Regroup([CHAR_D], EncodeDict(d), [CHAR_E] + rest);
  }

  lemma EntryThen(e: Entry, d: seq<Entry>, rest: seq<Byte>)
    ensures EncodeDict([e] + d) + rest == EncodeBstr(e.key) + (Encode(e.val) + (EncodeDict(d) + rest))
  {
    var l := [e] + d;
    assert l[0] == e && l[1..] == d;
    assert EncodeDict(l) == EncodeBstr(e.key) + Encode(e.val) + EncodeDict(d);
    hide EncodeDict, EncodeBstr, Encode;
    Regroup(EncodeBstr(e.key) + Encode(e.val), EncodeDict(d), rest);
    Regroup(EncodeBstr(e.key), Encode(e.val), EncodeDict(d) + rest);
  }

  lemma BstrThen(s: seq<Byte>, rest: seq<Byte>)
    ensures EncodeBstr(s) + rest == Decimal(|s|) + ([COLON] + (s + rest))
  {
    hide Decimal;
    Regroup(Decimal(|s|) + [COLON], s, rest);
    Regroup(Decimal(|s|), [COLON], s + rest);
  }

  // ------------------------------------------------- message envelopes

  /** The optional version entry: `my_v` holds its encoding. */
  function Version(v: Option<seq<Byte>>): seq<Entry>
  {
    if v.None? then [] else [Entry(Text("v"), Bstr(v.value))]
  }

  function VersionBytes(v: Option<seq<Byte>>): seq<Byte>
  {
    if v.None? then [] else Text("1:v4:") + v.value
  }

  /** The end of every message: transaction id, version, kind. */
  function Trailer(tid: seq<Byte>, v: Option<seq<Byte>>, kind: string): seq<Entry>
  {
    [Entry(Text("t"), Bstr(tid))] + (Version(v) + [Entry(Text("y"), Bstr(Text(kind)))])
  }

  function Query(name: string, args: seq<Entry>, tid: seq<Byte>, v: Option<seq<Byte>>): Obj
  {
    Dict([Entry(Text("a"), Dict(args))] + ([Entry(Text("q"), Bstr(Text(name)))] + Trailer(tid, v, "q")))
  }

  function Reply(args: seq<Entry>, tid: seq<Byte>, v: Option<seq<Byte>>): Obj
  {
    Dict([Entry(Text("r"), Dict(args))] + Trailer(tid, v, "r"))
  }

  /** Transaction id, version and kind, as the printers spell them. */
  function TrailerBytes(tid: seq<Byte>, v: Option<seq<Byte>>, end: string): seq<Byte>
  {
    Text("1:t") + (Decimal(|tid|) + ([COLON] + (tid + (VersionBytes(v) + Text(end)))))
  }

  lemma VersionSpelled(v: Option<seq<Byte>>, rest: seq<Byte>)
    requires v.Some? ==> |v.value| == 4
    ensures EncodeDict(Version(v)) + rest == VersionBytes(v) + rest
  {
    if v.Some? {
      EntryThen(Entry(Text("v"), Bstr(v.value)), [], []);
      assert [Entry(Text("v"), Bstr(v.value))] + [] == Version(v);
      ShortBstr("v", "1:v");
      FourBytes(v.value);
      TextJoin("1:v", "4:");
      assert "1:v" + "4:" == "1:v4:";
      hide Text, EncodeBstr, Encode, EncodeDict;
      assert EncodeDict(Version(v)) == EncodeBstr(Text("v")) + EncodeBstr(v.value);
      Regroup(Text("1:v"), Text("4:"), v.value);
    } else {
      assert EncodeDict([]) == [];
    }
  }

  lemma FourBytes(s: seq<Byte>)
    requires |s| == 4
    ensures EncodeBstr(s) == Text("4:") + s
  {
    assert Decimal(4) == [DIGIT_0 + 4];
    assert Text("4:") == [DIGIT_0 + 4, COLON];
  }

  lemma TrailerSpelled(tid: seq<Byte>, v: Option<seq<Byte>>, kind: string, end: string)
    requires v.Some? ==> |v.value| == 4
    requires |kind| == 1 && end == "1:y" + "1:" + kind + "e"
    ensures EncodeDict(Trailer(tid, v, kind)) + [CHAR_E] == TrailerBytes(tid, v, end)
  {
    var y := Entry(Text("y"), Bstr(Text(kind)));
    KindSpelled(kind, end);
    EntryThen(Entry(Text("t"), Bstr(tid)), Version(v) + [y], [CHAR_E]);
    ShortBstr("t", "1:t");
    BstrThen(tid, EncodeDict(Version(v) + [y]) + [CHAR_E]);
    VersionThen(v, y);
    VersionSpelled(v, Text(end));
  }

  lemma KindSpelled(kind: string, end: string)
    requires |kind| == 1 && end == "1:y" + "1:" + kind + "e"
    ensures EncodeDict([Entry(Text("y"), Bstr(Text(kind)))]) + [CHAR_E] == Text(end)
  {
    var y := Entry(Text("y"), Bstr(Text(kind)));
    EntryThen(y, [], [CHAR_E]);
    assert [y] + [] == [y];
    ShortBstr("y", "1:y");
    ShortBstr(kind, "1:" + kind);
    TextJoin("1:y", "1:" + kind);
    TextJoin("1:y" + ("1:" + kind), "e");
    assert "1:y" + "1:" + kind + "e" == "1:y" + ("1:" + kind) + "e";
    assert Text("e") == [CHAR_E];
    assert EncodeDict([]) + [CHAR_E] == [CHAR_E];
    hide Text, EncodeBstr, Encode, EncodeDict;
    Regroup(Text("1:y"), Text("1:" + kind), [CHAR_E]);
  }

  lemma VersionThen(v: Option<seq<Byte>>, y: Entry)
    ensures EncodeDict(Version(v) + [y]) + [CHAR_E] == EncodeDict(Version(v)) + (EncodeDict([y]) + [CHAR_E])
  {
    if v.Some? {
      var e := Entry(Text("v"), Bstr(v.value));
      EntryThen(e, [y], [CHAR_E]);
      EntryThen(e, [], EncodeDict([y]) + [CHAR_E]);
      assert [e] + [] == Version(v) && EncodeDict([]) == [];
      assert [] + (EncodeDict([y]) + [CHAR_E]) == EncodeDict([y]) + [CHAR_E];
    } else {
      assert Version(v) + [y] == [y] && EncodeDict([]) == [];
    }
  }

  /** A query, spelled rightward from its envelope. */
  lemma QuerySpelled(name: string, args: seq<Entry>, tid: seq<Byte>, v: Option<seq<Byte>>)
    requires v.Some? ==> |v.value| == 4
    ensures Encode(Query(name, args, tid, v))
         == Text("d1:ad")
           + (EncodeDict(args) + (Text("e1:q") + (EncodeBstr(Text(name)) + TrailerBytes(tid, v, "1:y1:qe"))))
  {
    var a, q, t := Entry(Text("a"), Dict(args)), Entry(Text("q"), Bstr(Text(name))), Trailer(tid, v, "q");
    var end := TrailerBytes(tid, v, "1:y1:qe");
    assert "1:y1:qe" == "1:y" + "1:" + "q" + "e";
    TrailerSpelled(tid, v, "q", "1:y1:qe");
    ShortBstr("a", "1:a");
    ShortBstr("q", "1:q");
    DictStarts("1:a", "d1:ad");
    EndsWith("1:q", "e1:q");
    hide Text, EncodeBstr, Encode, EncodeDict, Trailer, TrailerBytes;
    WholeDict([a] + ([q] + t));
    EntryThen(a, [q] + t, [CHAR_E]);
    EntryThen(q, t, [CHAR_E]);
    BodyThen(args, EncodeDict([q] + t) + [CHAR_E]);
    EncodeBstrIs(Text(name));
    Envelope([CHAR_D], Text("1:a"), EncodeDict(args), Text("1:q"), EncodeBstr(Text(name)), end);
  }

  lemma WholeDict(d: seq<Entry>)
    ensures Encode(Dict(d)) == [CHAR_D] + (EncodeDict(d) + [CHAR_E])
  {
    Regroup([CHAR_D], EncodeDict(d), [CHAR_E]);
  }

  lemma BodyThen(args: seq<Entry>, rest: seq<Byte>)
    ensures Encode(Dict(args)) + rest == [CHAR_D] + (EncodeDict(args) + ([CHAR_E] + rest))
  {
    DictThen(args, rest);
  }

  lemma EncodeBstrIs(s: seq<Byte>)
    ensures Encode(Bstr(s)) == EncodeBstr(s)
  {
  }

  lemma DictStarts(key: string, both: string)
    requires both == "d" + key + "d"
    ensures Text(both) == [CHAR_D] + (Text(key) + [CHAR_D])
  {
    TextJoin("d" + key, "d");
    TextJoin("d", key);
    assert Text("d") == [CHAR_D];
    Regroup([CHAR_D], Text(key), [CHAR_D]);
  }

  lemma EndsWith(key: string, both: string)
    requires both == "e" + key
    ensures Text(both) == [CHAR_E] + Text(key)
  {
    TextJoin("e", key);
    assert Text("e") == [CHAR_E];
  }

  lemma Envelope(d: seq<Byte>, ka: seq<Byte>, args: seq<Byte>, kq: seq<Byte>, name: seq<Byte>, end: seq<Byte>)
    ensures d + (ka + (d + (args + ([CHAR_E] + (kq + (name + end))))))
         == (d + (ka + d)) + (args + (([CHAR_E] + kq) + (name + end)))
  {
    var x := name + end;
    Regroup([CHAR_E], kq, x);
    var y := args + (([CHAR_E] + kq) + x);
    Regroup(ka, d, y);
    Regroup(d, ka + d, y);
  }

  /** A reply, spelled rightward from its envelope. */
  lemma ReplySpelled(args: seq<Entry>, tid: seq<Byte>, v: Option<seq<Byte>>)
    requires v.Some? ==> |v.value| == 4
    ensures Encode(Reply(args, tid, v))
      == Text("d1:rd") + (EncodeDict(args) + (Text("e") + TrailerBytes(tid, v, "1:y1:re")))
  {
    var r, t := Entry(Text("r"), Dict(args)), Trailer(tid, v, "r");
    var end := TrailerBytes(tid, v, "1:y1:re");
    assert "1:y1:re" == "1:y" + "1:" + "r" + "e";
    TrailerSpelled(tid, v, "r", "1:y1:re");
    ShortBstr("r", "1:r");
    DictStarts("1:r", "d1:rd");
    assert Text("e") == [CHAR_E];
    hide Text, EncodeBstr, Encode, EncodeDict, Trailer, TrailerBytes;
    WholeDict([r] + t);
    EntryThen(r, t, [CHAR_E]);
    BodyThen(args, EncodeDict(t) + [CHAR_E]);
    var y := EncodeDict(args) + ([CHAR_E] + end);
    Regroup(Text("1:r"), [CHAR_D], y);
    Regroup([CHAR_D], Text("1:r") + [CHAR_D], y);
  }

  /** An argument whose value is a string. */
  function Arg(key: string, s: seq<Byte>): Entry
  {
    Entry(Text(key), Bstr(s))
  }

  /** A string argument, when what announces it is printed as `head`. */
  lemma ArgThen(key: string, s: seq<Byte>, more: seq<Entry>, head: seq<Byte>, rest: seq<Byte>)
    requires head == EncodeBstr(Text(key)) + (Decimal(|s|) + [COLON])
    ensures EncodeDict([Arg(key, s)] + more) + rest == head + (s + (EncodeDict(more) + rest))
  {
    hide EncodeDict, Encode, EncodeBstr, Decimal, Text;
    EntryThen(Arg(key, s), more, rest);
    EncodeBstrIs(s);
    BstrThen(s, EncodeDict(more) + rest);
    Regroup(Decimal(|s|), [COLON], s + (EncodeDict(more) + rest));
    Regroup(EncodeBstr(Text(key)), Decimal(|s|) + [COLON], s + (EncodeDict(more) + rest));
  }

  /** The head of a 20-byte argument, `<key>20:`. */
  lemma Head20(ekey: string, key: string, both: string, s: seq<Byte>)
    requires |s| == 20 && 0 < |key| < 10 && |ekey| == |key| + 2 && ekey[0] as int == 48 + |key| && ekey[1] == ':'
      && ekey[2..] == key
    requires both == ekey + "20:"
    ensures Text(both) == EncodeBstr(Text(key)) + (Decimal(|s|) + [COLON])
  {
    ShortBstr(key, ekey);
    TextJoin(ekey, "20:");
    assert Decimal(20) == [DIGIT_0 + 2, DIGIT_0] by { assert Decimal(2) == [DIGIT_0 + 2]; }
    assert Text("20:") == [DIGIT_0 + 2, DIGIT_0] + [COLON];
  }

  /** `"<head>%d:", tid_len`, the transaction id, the version and the end. */
  function TailBytes(head: string, tid: seq<Byte>, v: Option<seq<Byte>>, end: string): seq<Byte>
  {
    (Text(head) + Decimal(|tid|) + [COLON]) + (tid + (VersionBytes(v) + Text(end)))
  }

  lemma TailSpelled(a: string, head: string, tid: seq<Byte>, v: Option<seq<Byte>>, end: string)
    requires head == a + "1:t"
    ensures Text(a) + TrailerBytes(tid, v, end) == TailBytes(head, tid, v, end)
  {
    TextJoin(a, "1:t");
    hide Text, Decimal, VersionBytes;
    var x := tid + (VersionBytes(v) + Text(end));
    Regroup(Text(head) + Decimal(|tid|), [COLON], x);
    Regroup(Text(head), Decimal(|tid|), [COLON] + x);
    Regroup(Text(a), Text("1:t"), Decimal(|tid|) + ([COLON] + x));
  }

  /** A query whose first argument is our id, piece by piece. */
  lemma IdQuery(name: string, ename: string, head: string, myid: seq<Byte>, more: seq<Entry>, tid: seq<Byte>,
                v: Option<seq<Byte>>)
    requires |myid| == 20 && (v.Some? ==> |v.value| == 4)
    requires EncodeBstr(Text(name)) == Text(ename) && head == "e1:q" + ename + "1:t"
    ensures Encode(Query(name, [Arg("id", myid)] + more, tid, v))
         == Text("d1:ad2:id20:") + (myid + (EncodeDict(more) + TailBytes(head, tid, v, "1:y1:qe")))
  {
    Head20("2:id", "id", "2:id20:", myid);
    TextJoin("d1:ad", "2:id20:");
    assert "d1:ad" + "2:id20:" == "d1:ad2:id20:";
    TextJoin("e1:q", ename);
    hide Text, EncodeBstr, Encode, EncodeDict, TrailerBytes, TailBytes, Query, Decimal;
    QuerySpelled(name, [Arg("id", myid)] + more, tid, v);
    var x := TrailerBytes(tid, v, "1:y1:qe");
    Regroup(Text("e1:q"), Text(ename), x);
    TailSpelled("e1:q" + ename, head, tid, v, "1:y1:qe");
    var y := TailBytes(head, tid, v, "1:y1:qe");
    ArgThen("id", myid, more, Text("2:id20:"), y);
    Regroup(Text("d1:ad"), Text("2:id20:"), myid + (EncodeDict(more) + y));
  }

  /** A reply whose first value is our id, piece by piece. */
  lemma IdReply(myid: seq<Byte>, more: seq<Entry>, tid: seq<Byte>, v: Option<seq<Byte>>)
    requires |myid| == 20 && (v.Some? ==> |v.value| == 4)
    ensures Encode(Reply([Arg("id", myid)] + more, tid, v))
         == Text("d1:rd2:id20:") + (myid + (EncodeDict(more) + TailBytes("e1:t", tid, v, "1:y1:re")))
  {
    Head20("2:id", "id", "2:id20:", myid);
    TextJoin("d1:rd", "2:id20:");
    assert "d1:rd" + "2:id20:" == "d1:rd2:id20:";
    assert "e" + "1:t" == "e1:t";
    hide Text, EncodeBstr, Encode, EncodeDict, TrailerBytes, TailBytes, Reply, Decimal;
    ReplySpelled([Arg("id", myid)] + more, tid, v);
    TailSpelled("e", "e1:t", tid, v, "1:y1:re");
    var y := TailBytes("e1:t", tid, v, "1:y1:re");
    ArgThen("id", myid, more, Text("2:id20:"), y);
    Regroup(Text("d1:rd"), Text("2:id20:"), myid + (EncodeDict(more) + y));
  }

  /** No further arguments. */
  lemma NoMore(rest: seq<Byte>)
    ensures EncodeDict([]) + rest == rest
  {
    assert [] + rest == rest;
  }

  // ----------------------------------------------------- further arguments

  /** The families `want` asks for; printed only when it is positive. */
  function WantArg(want: int): seq<Entry>
  {
    if want <= 0 then []
    else [Entry(Text("want"), List((if want % 2 == 1 then [Bstr(Text("n4"))] else [])
                                   + (if want / 2 % 2 == 1 then [Bstr(Text("n6"))] else [])))]
  }

  /** `"4:wantl%s%se"`. */
  function WantBytes(want: int): seq<Byte>
  {
    Text("4:wantl") + (if want % 2 == 1 then Text("2:n4") else []) + (if want / 2 % 2 == 1 then Text("2:n6") else [])
      + Text("e")
  }

  lemma WantSpelled(want: int)
    ensures EncodeDict(WantArg(want)) == if want > 0 then WantBytes(want) else []
  {
    if want > 0 {
      var a := if want % 2 == 1 then [Bstr(Text("n4"))] else [];
      var b := if want / 2 % 2 == 1 then [Bstr(Text("n6"))] else [];
      ShortBstr("want", "4:want");
      TextJoin("4:want", "l");
      assert "4:want" + "l" == "4:wantl";
      assert Text("l") == [CHAR_L] && Text("e") == [CHAR_E];
      OneOrNone(want % 2 == 1, "n4", "2:n4");
      OneOrNone(want / 2 % 2 == 1, "n6", "2:n6");
      hide Text, EncodeBstr, EncodeDict, EncodeList, Encode;
      OneEntry(Entry(Text("want"), List(a + b)));
      ListIs(a + b);
      ListJoin(a, b);
      WantGroup(Text("4:want"), [CHAR_L], EncodeList(a), EncodeList(b), [CHAR_E]);
    }
  }

  lemma WantGroup(k: seq<Byte>, l: seq<Byte>, x: seq<Byte>, y: seq<Byte>, e: seq<Byte>)
    ensures k + (l + (x + y) + e) == (k + l) + x + y + e
  {
  }

  /** `flag ? "<text>" : ""`, as a list of one or no strings. */
  lemma OneOrNone(flag: bool, s: string, e: string)
    requires 0 < |s| < 10 && |e| == |s| + 2 && e[0] as int == 48 + |s| && e[1] == ':' && e[2..] == s
    ensures EncodeList(if flag then [Bstr(Text(s))] else []) == if flag then Text(e) else []
  {
    ShortBstr(s, e);
    var x := Bstr(Text(s));
    assert [x][1..] == [];
    assert EncodeList([x]) == Encode(x) + EncodeList([x][1..]);
  }

  lemma {:induction false} ListJoin(a: seq<Obj>, b: seq<Obj>)
    ensures EncodeList(a + b) == EncodeList(a) + EncodeList(b)
    decreases a
  {
    if a == [] {
      assert a + b == b;
    } else {
      assert (a + b)[1..] == a[1..] + b;
      ListJoin(a[1..], b);
    }
  }

  lemma ListIs(l: seq<Obj>)
    ensures Encode(List(l)) == [CHAR_L] + EncodeList(l) + [CHAR_E]
  {
  }

  lemma OneEntry(e: Entry)
    ensures EncodeDict([e]) == EncodeBstr(e.key) + Encode(e.val)
  {
    assert [e][1..] == [];
  }
}
