/** The texts the bencode decoder accepts, as a grammar, and that it accepts
    exactly these. */
module BencodeGrammar {
  import opened Bytes
  import opened Options
  import opened Bencode

  /** `i`, digits, `e`; after a minus sign the digits may be missing. */
  ghost predicate IntText(s: seq<Byte>, i: int)
  {
    exists ds: seq<Byte> :: AllDigits(ds) && (PlainInt(s, ds, i) || SignedInt(s, ds, i))
  }

  predicate PlainInt(s: seq<Byte>, ds: seq<Byte>, i: int)
  {
    ds != [] && s == [CHAR_I] + (ds + [CHAR_E]) && i == Spell(0, ds)
  }

  predicate SignedInt(s: seq<Byte>, ds: seq<Byte>, i: int)
  {
    s == [CHAR_I] + ([MINUS] + (ds + [CHAR_E])) && i + Spell(0, ds) == 0
  }

  /** Digits that spell the length, a colon, and that many bytes, at least one. */
  ghost predicate BstrText(s: seq<Byte>, b: seq<Byte>)
  {
    exists ds: seq<Byte> :: AllDigits(ds) && LengthText(s, ds, b)
  }

  predicate LengthText(s: seq<Byte>, ds: seq<Byte>, b: seq<Byte>)
  {
    s == ds + ([COLON] + b) && Spell(0, ds) == |b| && b != []
  }

  ghost predicate ObjText(s: seq<Byte>, o: Obj)
    decreases o
  {
    match o
    case Int(i) => IntText(s, i)
    case Bstr(b) => BstrText(s, b)
    case List(l) => exists t: seq<Byte> :: s == [CHAR_L] + (t + [CHAR_E]) && ListText(t, l)
    case Dict(d) => exists t: seq<Byte> :: s == [CHAR_D] + (t + [CHAR_E]) && DictText(t, d)
  }

  ghost predicate ListText(t: seq<Byte>, l: seq<Obj>)
    decreases l
  {
    if l == [] then t == []
    else exists a: seq<Byte>, b: seq<Byte> :: t == a + b && ObjText(a, l[0]) && ListText(b, l[1..])
  }

  ghost predicate DictText(t: seq<Byte>, d: seq<Entry>)
    decreases d
  {
    if d == [] then t == []
    else exists k: seq<Byte>, a: seq<Byte>, b: seq<Byte> ::
      t == k + (a + b) && BstrText(k, d[0].key) && ObjText(a, d[0].val) && DictText(b, d[1..])
  }

  // ------------------------------------------- every text is accepted

  lemma DigitIsNot(ds: seq<Byte>)
    requires AllDigits(ds) && ds != []
    ensures IsDigit(ds[0]) && AllDigits(ds[1..]) && ds == [ds[0]] + ds[1..]
  {
    assert ds[0] in ds;
    forall c | c in ds[1..] ensures c in ds {
    }
  }

  lemma IntAccepted(m: seq<Byte>, p: nat, s: seq<Byte>, i: int)
    requires Holds(m, p, s) && IntText(s, i)
    ensures At(m, p) == CHAR_I && DecodeInt(m, p) == Some((i, p + |s|))
  {
    hide Holds, DecodeDigits, Spell;
    var ds: seq<Byte> :| AllDigits(ds) && (PlainInt(s, ds, i) || SignedInt(s, ds, i));
    if PlainInt(s, ds, i) {
      PlainAccepted(m, p, ds);
    } else {
      SignedAccepted(m, p, ds);
    }
  }

  lemma PlainAccepted(m: seq<Byte>, p: nat, ds: seq<Byte>)
    requires AllDigits(ds) && ds != [] && Holds(m, p, [CHAR_I] + (ds + [CHAR_E]))
    ensures At(m, p) == CHAR_I && DecodeInt(m, p) == Some((Spell(0, ds), p + |ds| + 2))
  {
    hide Holds, DecodeDigits, AllDigits, Spell;
    DigitIsNot(ds);
    var t := ds[1..];
    SpellHead(ds[0], t);
    assert ds + [CHAR_E] == [ds[0]] + (t + [CHAR_E]);
    HoldsJoin(m, p, [CHAR_I], ds + [CHAR_E]);
    HoldsJoin(m, p + 1, [ds[0]], t + [CHAR_E]);
    HoldsOne(m, p, CHAR_I);
    HoldsOne(m, p + 1, ds[0]);
    DecodeDigitsOf(m, p + 1, t, DigitValue(ds[0]));
  }

  lemma SignedAccepted(m: seq<Byte>, p: nat, ds: seq<Byte>)
    requires AllDigits(ds) && Holds(m, p, [CHAR_I] + ([MINUS] + (ds + [CHAR_E])))
    ensures var n: int := Spell(0, ds); At(m, p) == CHAR_I && DecodeInt(m, p) == Some((-n, p + |ds| + 3))
  {
    hide Holds, DecodeDigits, AllDigits, Spell;
    HoldsJoin(m, p, [CHAR_I], [MINUS] + (ds + [CHAR_E]));
    HoldsJoin(m, p + 1, [MINUS], ds + [CHAR_E]);
    HoldsOne(m, p, CHAR_I);
    HoldsOne(m, p + 1, MINUS);
    DecodeDigitsOf(m, p + 1, ds, 0);
  }

  lemma BstrAccepted(m: seq<Byte>, p: nat, s: seq<Byte>, b: seq<Byte>)
    requires Holds(m, p, s) && BstrText(s, b)
    ensures IsDigit(At(m, p)) && DecodeBstr(m, p, 0) == Some((b, p + |s|))
  {
    hide Holds, DecodeBstr;
    var ds: seq<Byte> :| AllDigits(ds) && LengthText(s, ds, b);
    assert ds != [];
    BstrDigits(m, p, ds, 0, b);
    HoldsJoin(m, p, ds, [COLON] + b);
    DigitIsNot(ds);
    HoldsFirst(m, p, ds);
  }

  /** No object's text starts like the end of a list. */
  lemma TextStarts(s: seq<Byte>, o: Obj)
    requires ObjText(s, o)
    ensures s != [] && s[0] != CHAR_E
  {
    match o
    case Int(i) =>
    case Bstr(b) =>
      var ds: seq<Byte> :| AllDigits(ds) && LengthText(s, ds, b);
      assert ds != [];
      DigitIsNot(ds);
    case List(l) =>
    case Dict(d) =>
  }

  lemma {:induction false} TextAccepted(m: seq<Byte>, p: nat, s: seq<Byte>, o: Obj)
    requires Holds(m, p, s) && ObjText(s, o)
    ensures Decode(m, p) == Some((o, p + |s|))
    decreases o
  {
    hide Holds, DecodeInt, DecodeBstr, IntText, BstrText;
    match o
    case Int(i) =>
      IntAccepted(m, p, s, i);
    case Bstr(b) =>
      BstrAccepted(m, p, s, b);
    case List(l) =>
      var t: seq<Byte> :| s == [CHAR_L] + (t + [CHAR_E]) && ListText(t, l);
      HoldsJoin(m, p, [CHAR_L], t + [CHAR_E]);
      HoldsOne(m, p, CHAR_L);
      ListAccepted(m, p + 1, t, l);
    case Dict(d) =>
      var t: seq<Byte> :| s == [CHAR_D] + (t + [CHAR_E]) && DictText(t, d);
      HoldsJoin(m, p, [CHAR_D], t + [CHAR_E]);
      HoldsOne(m, p, CHAR_D);
      DictAccepted(m, p + 1, t, d);
  }

  lemma {:induction false} ListAccepted(m: seq<Byte>, p: nat, t: seq<Byte>, l: seq<Obj>)
    requires Holds(m, p, t + [CHAR_E]) && ListText(t, l)
    ensures DecodeList(m, p) == Some((l, p + |t| + 1))
    decreases l
  {
    hide Holds, Decode, ObjText;
    if l == [] {
      assert t + [CHAR_E] == [CHAR_E];
      HoldsOne(m, p, CHAR_E);
    } else {
      var a: seq<Byte>, b: seq<Byte> :| t == a + b && ObjText(a, l[0]) && ListText(b, l[1..]);
      assert t + [CHAR_E] == a + (b + [CHAR_E]);
      HoldsJoin(m, p, a, b + [CHAR_E]);
      TextStarts(a, l[0]);
      HoldsFirst(m, p, a);
      TextAccepted(m, p, a, l[0]);
      ListAccepted(m, p + |a|, b, l[1..]);
      assert [l[0]] + l[1..] == l;
    }
  }

  lemma {:induction false} DictAccepted(m: seq<Byte>, p: nat, t: seq<Byte>, d: seq<Entry>)
    requires Holds(m, p, t + [CHAR_E]) && DictText(t, d)
    ensures DecodeDict(m, p) == Some((d, p + |t| + 1))
    decreases d
  {
    hide Holds, Decode, DecodeBstr, DecodeDict, ObjText, BstrText;
    if d == [] {
      assert t + [CHAR_E] == [CHAR_E];
      HoldsOne(m, p, CHAR_E);
      DictEnd(m, p);
    } else {
      var k: seq<Byte>, a: seq<Byte>, b: seq<Byte> :|
        t == k + (a + b) && BstrText(k, d[0].key) && ObjText(a, d[0].val) && DictText(b, d[1..]);
      assert t + [CHAR_E] == k + (a + (b + [CHAR_E]));
      HoldsJoin(m, p, k, a + (b + [CHAR_E]));
      HoldsJoin(m, p + |k|, a, b + [CHAR_E]);
      BstrAccepted(m, p, k, d[0].key);
      TextAccepted(m, p + |k|, a, d[0].val);
      DictAccepted(m, p + |k| + |a|, b, d[1..]);
      DictTurn(m, p, d, p + |k|, p + |k| + |a|, p + |t| + 1);
    }
  }

  lemma DictTurn(m: seq<Byte>, p: nat, d: seq<Entry>, q: nat, r: nat, z: nat)
    requires d != [] && IsDigit(At(m, p)) && DecodeBstr(m, p, 0) == Some((d[0].key, q))
    requires Decode(m, q) == Some((d[0].val, r)) && DecodeDict(m, r) == Some((d[1..], z))
    ensures DecodeDict(m, p) == Some((d, z))
  {
    hide Decode, DecodeBstr;
    assert [Entry(d[0].key, d[0].val)] + d[1..] == d;
  }

  // --------------------------------------------- nothing else is accepted

  lemma HoldsSingle(m: seq<Byte>, p: nat, c: Byte)
    requires p < |m| && At(m, p) == c
    ensures Holds(m, p, [c])
  {
  }

  lemma {:induction false} DigitsOnly(m: seq<Byte>, p: nat, acc: nat) returns (ds: seq<Byte>)
    requires DecodeDigits(m, p, acc).Some?
    ensures AllDigits(ds) && Holds(m, p + 1, ds + [CHAR_E])
    ensures DecodeDigits(m, p, acc).value == (Spell(acc, ds), p + |ds| + 2)
    decreases |m| - p
  {
    hide Holds;
    var c := At(m, p + 1);
    HoldsSingle(m, p + 1, c);
    if IsDigit(c) {
      var t := DigitsOnly(m, p + 1, acc * 10 + DigitValue(c));
      ds := [c] + t;
      assert ds + [CHAR_E] == [c] + (t + [CHAR_E]);
      HoldsJoin(m, p + 1, [c], t + [CHAR_E]);
    } else {
      ds := [];
      assert ds + [CHAR_E] == [CHAR_E];
    }
  }

  lemma IntOnly(m: seq<Byte>, p: nat) returns (s: seq<Byte>)
    requires At(m, p) == CHAR_I && DecodeInt(m, p).Some?
    ensures Holds(m, p, s) && IntText(s, DecodeInt(m, p).value.0) && DecodeInt(m, p).value.1 == p + |s|
  {
    hide Holds, DecodeDigits, Spell;
    var c := At(m, p + 1);
    HoldsSingle(m, p, CHAR_I);
    HoldsSingle(m, p + 1, c);
    if c == MINUS {
      var ds := DigitsOnly(m, p + 1, 0);
      s := [CHAR_I] + ([MINUS] + (ds + [CHAR_E]));
      HoldsJoin(m, p + 1, [MINUS], ds + [CHAR_E]);
      HoldsJoin(m, p, [CHAR_I], [MINUS] + (ds + [CHAR_E]));
      assert SignedInt(s, ds, DecodeInt(m, p).value.0);
    } else {
      var t := DigitsOnly(m, p + 1, DigitValue(c));
      var ds := [c] + t;
      s := [CHAR_I] + (ds + [CHAR_E]);
      assert ds + [CHAR_E] == [c] + (t + [CHAR_E]);
      HoldsJoin(m, p + 1, [c], t + [CHAR_E]);
      HoldsJoin(m, p, [CHAR_I], ds + [CHAR_E]);
      SpellHead(c, t);
      assert PlainInt(s, ds, DecodeInt(m, p).value.0);
    }
  }

  lemma SpellHead(c: Byte, t: seq<Byte>)
    ensures Spell(0, [c] + t) == Spell(DigitValue(c), t)
  {
    assert ([c] + t)[1..] == t;
  }

  lemma {:induction false} LengthOnly(m: seq<Byte>, p: nat, len: nat) returns (ds: seq<Byte>)
    requires DecodeBstr(m, p, len).Some?
    ensures var v := DecodeBstr(m, p, len).value;
            && AllDigits(ds) && Holds(m, p, ds + ([COLON] + v.0)) && Spell(len, ds) == |v.0| && v.0 != []
            && v.1 == p + |ds| + 1 + |v.0|
    decreases |m| - p
  {
    hide Holds;
    var c, v := At(m, p), DecodeBstr(m, p, len).value;
    HoldsSingle(m, p, c);
    if IsDigit(c) {
      var t := LengthOnly(m, p + 1, len * 10 + DigitValue(c));
      ds := [c] + t;
      assert ds + ([COLON] + v.0) == [c] + (t + ([COLON] + v.0));
      HoldsJoin(m, p, [c], t + ([COLON] + v.0));
      assert ds[1..] == t;
    } else {
      ds := [];
      assert ds + ([COLON] + v.0) == [COLON] + v.0;
      SliceHolds(m, p + 1, len);
      HoldsJoin(m, p, [COLON], v.0);
    }
  }

  lemma SliceHolds(m: seq<Byte>, p: nat, len: nat)
    requires p + len <= |m|
    ensures Holds(m, p, m[p..p + len])
  {
  }

  lemma BstrOnly(m: seq<Byte>, p: nat) returns (s: seq<Byte>)
    requires DecodeBstr(m, p, 0).Some?
    ensures var v := DecodeBstr(m, p, 0).value; Holds(m, p, s) && BstrText(s, v.0) && v.1 == p + |s|
  {
    hide Holds, DecodeBstr;
    var ds := LengthOnly(m, p, 0);
    s := ds + ([COLON] + DecodeBstr(m, p, 0).value.0);
    assert LengthText(s, ds, DecodeBstr(m, p, 0).value.0);
  }

  lemma {:induction false} OnlyText(m: seq<Byte>, p: nat) returns (s: seq<Byte>)
    requires Decode(m, p).Some?
    ensures Holds(m, p, s) && ObjText(s, Decode(m, p).value.0) && Decode(m, p).value.1 == p + |s|
    decreases |m| + 1 - p, 0
  {
    hide Holds, DecodeInt, DecodeBstr, DecodeList, DecodeDict, ListText, DictText, IntText, BstrText;
    var c := At(m, p);
    if c == CHAR_I {
      s := IntOnly(m, p);
    } else if c == CHAR_L {
      var t := OnlyList(m, p + 1);
      s := [CHAR_L] + (t + [CHAR_E]);
      HoldsSingle(m, p, CHAR_L);
      HoldsJoin(m, p, [CHAR_L], t + [CHAR_E]);
    } else if c == CHAR_D {
      var t := OnlyDict(m, p + 1);
      s := [CHAR_D] + (t + [CHAR_E]);
      HoldsSingle(m, p, CHAR_D);
      HoldsJoin(m, p, [CHAR_D], t + [CHAR_E]);
    } else {
      s := BstrOnly(m, p);
    }
  }

  lemma {:induction false} OnlyList(m: seq<Byte>, p: nat) returns (t: seq<Byte>)
    requires DecodeList(m, p).Some?
    ensures var v := DecodeList(m, p).value;
            Holds(m, p, t + [CHAR_E]) && ListText(t, v.0) && v.1 == p + |t| + 1
    decreases |m| + 1 - p, 1
  {
    hide Holds, Decode, ObjText;
    if At(m, p) == CHAR_E {
      t := [];
      assert t + [CHAR_E] == [CHAR_E];
      HoldsSingle(m, p, CHAR_E);
    } else {
      var a := OnlyText(m, p);
      var v := Decode(m, p).value;
      var b := OnlyList(m, v.1);
      var l := DecodeList(m, v.1).value.0;
      t := a + b;
      assert t + [CHAR_E] == a + (b + [CHAR_E]);
      HoldsJoin(m, p, a, b + [CHAR_E]);
      assert ([v.0] + l)[0] == v.0 && ([v.0] + l)[1..] == l;
    }
  }

  lemma {:induction false} OnlyDict(m: seq<Byte>, p: nat) returns (t: seq<Byte>)
    requires DecodeDict(m, p).Some?
    ensures var v := DecodeDict(m, p).value;
            Holds(m, p, t + [CHAR_E]) && DictText(t, v.0) && v.1 == p + |t| + 1
    decreases |m| + 1 - p, 1
  {
    hide Holds, Decode, DecodeBstr, ObjText, BstrText;
    if At(m, p) == CHAR_E {
      t := [];
      assert t + [CHAR_E] == [CHAR_E];
      HoldsSingle(m, p, CHAR_E);
    } else {
      var k := BstrOnly(m, p);
      var key := DecodeBstr(m, p, 0).value;
      var a := OnlyText(m, key.1);
      var v := Decode(m, key.1).value;
      var b := OnlyDict(m, v.1);
      var d := DecodeDict(m, v.1).value.0;
      t := k + (a + b);
      assert t + [CHAR_E] == k + (a + (b + [CHAR_E]));
      HoldsJoin(m, key.1, a, b + [CHAR_E]);
      HoldsJoin(m, p, k, a + (b + [CHAR_E]));
      var e := Entry(key.0, v.0);
      assert ([e] + d)[0] == e && ([e] + d)[1..] == d;
    }
  }

  /** The decoder succeeds at p exactly on the texts of the grammar, with the object
      the text stands for and the cursor behind it, whatever follows. */
  lemma DecodesGrammar(m: seq<Byte>, p: nat, o: Obj, q: nat)
    ensures Decode(m, p) == Some((o, q)) <==> p <= q <= |m| && ObjText(m[p..q], o)
  {
    hide Decode, ObjText;
    if Decode(m, p) == Some((o, q)) {
      var s := OnlyText(m, p);
    }
    if p <= q <= |m| && ObjText(m[p..q], o) {
      TextAccepted(m, p, m[p..q], o);
    }
  }

  /** What the encoder prints is a text of its object exactly when no string in it is empty. */
  lemma EncodingIsText(o: Obj)
    ensures ObjText(Encode(o), o) <==> NoEmpty(o)
  {
    hide Decode, ObjText, NoEmpty, Encode;
    var w := Encode(o);
    assert Holds(w, 0, w) && w[0..|w|] == w;
    RoundTrip(w, 0, o);
    DecodesGrammar(w, 0, o, |w|);
  }
}
