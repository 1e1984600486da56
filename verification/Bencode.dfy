/** What libbenc writes and reads, as functions on byte strings. */
module Bencode {
  import opened Bytes
  import opened Options

  /** `bobj_t`. */
  datatype Obj = Int(int_: int) | Bstr(bstr: seq<Byte>) | List(list: seq<Obj>) | Dict(dict: seq<Entry>)

  datatype Entry = Entry(key: seq<Byte>, val: Obj)

  const DIGIT_0: Byte := 48
  const COLON: Byte := 58
  const MINUS: Byte := 45
  const CHAR_I: Byte := 105
  const CHAR_L: Byte := 108
  const CHAR_D: Byte := 100
  const CHAR_E: Byte := 101

  predicate IsDigit(c: Byte)
  {
    DIGIT_0 <= c < DIGIT_0 + 10
  }

  /** `*(b->ptr) - '0'`. */
  function DigitValue(c: Byte): (v: nat)
  {
    var x: int := c;
    if IsDigit(c) then x - 48 else 0
  }

  predicate AllDigits(s: seq<Byte>)
  {
    forall c :: c in s ==> IsDigit(c)
  }

  // ------------------------------------------------------- encoding

  /** Decimal digits, the most significant first. */
  function Decimal(n: nat): (s: seq<Byte>)
    ensures |s| >= 1
  {
    if n < 10 then [DIGIT_0 + n] else Decimal(n / 10) + [DIGIT_0 + n % 10]
  }

  function EncodeInt(i: int): seq<Byte>
  {
    [CHAR_I] + (if i < 0 then [MINUS] + Decimal(-i) else Decimal(i)) + [CHAR_E]
  }

  function EncodeBstr(s: seq<Byte>): seq<Byte>
  {
    Decimal(|s|) + [COLON] + s
  }

  function Encode(o: Obj): (r: seq<Byte>)
    ensures |r| >= 1
    decreases o
  {
    match o
    case Int(i) => EncodeInt(i)
    case Bstr(s) => EncodeBstr(s)
    case List(l) => [CHAR_L] + EncodeList(l) + [CHAR_E]
    case Dict(d) => [CHAR_D] + EncodeDict(d) + [CHAR_E]
  }

  function EncodeList(l: seq<Obj>): seq<Byte>
    decreases l
  {
    if l == [] then [] else Encode(l[0]) + EncodeList(l[1..])
  }

  function EncodeDict(d: seq<Entry>): seq<Byte>
    decreases d
  {
    if d == [] then [] else EncodeBstr(d[0].key) + Encode(d[0].val) + EncodeDict(d[1..])
  }

  // ------------------------------------------------------- decoding

  /** The byte under the cursor; past the end, one that starts no token. */
  function At(m: seq<Byte>, p: nat): Byte
  {
    if p < |m| then m[p] else 0
  }

  /** A value and the cursor behind it, or failure. */
  type Parsed<T> = Option<(T, nat)>

  /** `benc_int_decode`, after its first character. */
  function DecodeDigits(m: seq<Byte>, p: nat, acc: nat): (r: Parsed<nat>)
    ensures r.Some? ==> p < r.value.1 <= |m|
    decreases |m| - p
  {
    if p + 1 > |m| then None
    else
      var c := At(m, p + 1);
      if IsDigit(c) then DecodeDigits(m, p + 1, acc * 10 + DigitValue(c))
      else if c == CHAR_E then Some((acc, p + 2))
      else None
  }

  function DecodeInt(m: seq<Byte>, p: nat): (r: Parsed<int>)
    ensures r.Some? ==> p < r.value.1 <= |m|
  {
    var c := At(m, p + 1);
    if c == MINUS then
      match DecodeDigits(m, p + 1, 0)
      case None => None
      case Some(v) =>
        var n: int := v.0;
        Some((-n, v.1))
    else if IsDigit(c) then
      match DecodeDigits(m, p + 1, DigitValue(c))
      case None => None
      case Some(v) => Some((v.0, v.1))
    else None
  }

  /** `benc_bstr_decode`. A string of length zero cannot be read back. */
  function DecodeBstr(m: seq<Byte>, p: nat, len: nat): (r: Parsed<seq<Byte>>)
    ensures r.Some? ==> p < r.value.1 <= |m|
    decreases |m| - p
  {
    var c := At(m, p);
    if IsDigit(c) then
      DecodeBstr(m, p + 1, len * 10 + DigitValue(c))
    else if c == COLON then
      if p + 1 + len > |m| || len == 0 then None else Some((m[p + 1..p + 1 + len], p + 1 + len))
    else None
  }

  /** `bdec_mem`. */
  function Decode(m: seq<Byte>, p: nat): (r: Parsed<Obj>)
    ensures r.Some? ==> p < r.value.1 <= |m|
    decreases |m| + 1 - p, 0
  {
    var c := At(m, p);
    if c == CHAR_I then
      match DecodeInt(m, p)
      case None => None
      case Some(v) => Some((Int(v.0), v.1))
    else if c == CHAR_L then
      match DecodeList(m, p + 1)
      case None => None
      case Some(v) => Some((List(v.0), v.1))
    else if c == CHAR_D then
      match DecodeDict(m, p + 1)
      case None => None
      case Some(v) => Some((Dict(v.0), v.1))
    else if IsDigit(c) then
      match DecodeBstr(m, p, 0)
      case None => None
      case Some(v) => Some((Bstr(v.0), v.1))
    else None
  }

  /** The loop of `benc_list_decode`. */
  function DecodeList(m: seq<Byte>, p: nat): (r: Parsed<seq<Obj>>)
    ensures r.Some? ==> p < r.value.1 <= |m|
    decreases |m| + 1 - p, 1
  {
    if At(m, p) == CHAR_E then Some(([], p + 1))
    else
      match Decode(m, p)
      case None => None
      case Some(v) =>
        match DecodeList(m, v.1)
        case None => None
        case Some(w) => Some(([v.0] + w.0, w.1))
  }

  /** The loop of `benc_dict_decode`. */
  function DecodeDict(m: seq<Byte>, p: nat): (r: Parsed<seq<Entry>>)
    ensures r.Some? ==> p < r.value.1 <= |m|
    decreases |m| + 1 - p, 1
  {
    if At(m, p) == CHAR_E then Some(([], p + 1))
    else
      match DecodeBstr(m, p, 0)
      case None => None
      case Some(k) =>
        match Decode(m, k.1)
        case None => None
        case Some(v) =>
          match DecodeDict(m, v.1)
          case None => None
          case Some(w) => Some(([Entry(k.0, v.0)] + w.0, w.1))
  }

  // ------------------------------------------------------ round trip

  /** Every string in the object, keys included, has a byte. */
  predicate NoEmpty(o: Obj)
    decreases o
  {
    match o
    case Int(_) => true
    case Bstr(s) => s != []
    case List(l) => NoEmptyList(l)
    case Dict(d) => NoEmptyDict(d)
  }

  predicate NoEmptyList(l: seq<Obj>)
    decreases l
  {
    l == [] || (NoEmpty(l[0]) && NoEmptyList(l[1..]))
  }

  predicate NoEmptyDict(d: seq<Entry>)
    decreases d
  {
    d == [] || (d[0].key != [] && NoEmpty(d[0].val) && NoEmptyDict(d[1..]))
  }

  /** The bytes of s stand in m from p on, whatever follows them. */
  predicate Holds(m: seq<Byte>, p: nat, s: seq<Byte>)
  {
    p + |s| <= |m| && m[p..p + |s|] == s
  }

  lemma HoldsJoin(m: seq<Byte>, p: nat, a: seq<Byte>, b: seq<Byte>)
    ensures Holds(m, p, a + b) <==> Holds(m, p, a) && Holds(m, p + |a|, b)
  {
    if p + |a| + |b| <= |m| {
      assert m[p..p + |a + b|] == m[p..p + |a|] + m[p + |a|..p + |a| + |b|];
      assert m[p..p + |a + b|][..|a|] == m[p..p + |a|] && m[p..p + |a + b|][|a|..] == m[p + |a|..p + |a| + |b|];
    }
  }

  lemma HoldsOne(m: seq<Byte>, p: nat, c: Byte)
    ensures Holds(m, p, [c]) ==> p < |m| && At(m, p) == c
  {
  }

  /** The value digits spell on top of an accumulator. */
  function Spell(acc: nat, s: seq<Byte>): nat
    decreases s
  {
    if s == [] then acc else Spell(acc * 10 + DigitValue(s[0]), s[1..])
  }

  lemma {:induction false} SpellLast(acc: nat, s: seq<Byte>, c: Byte)
    ensures Spell(acc, s + [c]) == Spell(acc, s) * 10 + DigitValue(c)
    decreases s
  {
    if s == [] {
      assert s + [c] == [c];
      assert [c][1..] == [];
    } else {
      SpellLast(acc * 10 + DigitValue(s[0]), s[1..], c);
      assert (s + [c])[1..] == s[1..] + [c];
    }
  }

  lemma {:induction false} DecimalSpells(n: nat)
    ensures AllDigits(Decimal(n)) && Spell(0, Decimal(n)) == n
  {
    if n < 10 {
      assert Decimal(n)[1..] == [];
    } else {
      DecimalSpells(n / 10);
      SpellLast(0, Decimal(n / 10), DIGIT_0 + n % 10);
    }
  }

  lemma {:induction false} DecodeDigitsOf(m: seq<Byte>, p: nat, s: seq<Byte>, acc: nat)
    requires AllDigits(s) && Holds(m, p + 1, s + [CHAR_E])
    ensures DecodeDigits(m, p, acc) == Some((Spell(acc, s), p + 2 + |s|))
    decreases s
  {
    HoldsJoin(m, p + 1, s, [CHAR_E]);
    if s == [] {
      HoldsOne(m, p + 1, CHAR_E);
    } else {
      assert s == [s[0]] + s[1..];
      HoldsJoin(m, p + 1, [s[0]], s[1..]);
      HoldsJoin(m, p + 2, s[1..], [CHAR_E]);
      HoldsOne(m, p + 1, s[0]);
      DecodeDigitsOf(m, p + 1, s[1..], acc * 10 + DigitValue(s[0]));
    }
  }

  lemma IntTrip(m: seq<Byte>, p: nat, i: int)
    requires Holds(m, p, EncodeInt(i))
    ensures At(m, p) == CHAR_I && DecodeInt(m, p) == Some((i, p + |EncodeInt(i)|))
  {
    if i < 0 {
      NegativeTrip(m, p, i);
    } else {
      PositiveTrip(m, p, i);
    }
  }

  lemma NegativeTrip(m: seq<Byte>, p: nat, i: int)
    requires i < 0 && Holds(m, p, [CHAR_I] + ([MINUS] + Decimal(-i)) + [CHAR_E])
    ensures At(m, p) == CHAR_I && DecodeInt(m, p) == Some((i, p + 3 + |Decimal(-i)|))
  {
    hide Holds, Spell, DecodeDigits, AllDigits;
    var s := Decimal(-i);
    DecimalSpells(-i);
    assert [CHAR_I] + ([MINUS] + s) + [CHAR_E] == [CHAR_I] + ([MINUS] + (s + [CHAR_E]));
    HoldsJoin(m, p, [CHAR_I], [MINUS] + (s + [CHAR_E]));
    HoldsJoin(m, p + 1, [MINUS], s + [CHAR_E]);
    HoldsOne(m, p, CHAR_I);
    HoldsOne(m, p + 1, MINUS);
    DecodeDigitsOf(m, p + 1, s, 0);
  }

  lemma PositiveTrip(m: seq<Byte>, p: nat, n: nat)
    requires Holds(m, p, [CHAR_I] + Decimal(n) + [CHAR_E])
    ensures At(m, p) == CHAR_I && DecodeInt(m, p) == Some((n, p + 2 + |Decimal(n)|))
  {
    hide Holds;
    var s, t := Decimal(n), Decimal(n)[1..];
    DecimalSpells(n);
    hide Decimal;
    assert s == [s[0]] + t && IsDigit(s[0]) && AllDigits(t);
    assert [CHAR_I] + s + [CHAR_E] == [CHAR_I] + ([s[0]] + (t + [CHAR_E]));
    HoldsJoin(m, p, [CHAR_I], [s[0]] + (t + [CHAR_E]));
    HoldsJoin(m, p + 1, [s[0]], t + [CHAR_E]);
    HoldsOne(m, p, CHAR_I);
    HoldsOne(m, p + 1, s[0]);
    DecodeDigitsOf(m, p + 1, t, DigitValue(s[0]));
  }

  lemma HoldsSlice(m: seq<Byte>, p: nat, s: seq<Byte>)
    requires Holds(m, p, s)
    ensures p + |s| <= |m| && m[p..p + |s|] == s
  {
  }

  lemma {:induction false} BstrDigits(m: seq<Byte>, p: nat, ds: seq<Byte>, len: nat, s: seq<Byte>)
    requires AllDigits(ds) && Holds(m, p, ds + ([COLON] + s)) && Spell(len, ds) == |s|
    ensures s == [] ==> DecodeBstr(m, p, len) == None
    ensures s != [] ==> DecodeBstr(m, p, len) == Some((s, p + |ds| + 1 + |s|))
    decreases ds
  {
    hide Holds;
    HoldsJoin(m, p, ds, [COLON] + s);
    if ds == [] {
      HoldsJoin(m, p, [COLON], s);
      HoldsOne(m, p, COLON);
      HoldsSlice(m, p + 1, s);
    } else {
      assert ds == [ds[0]] + ds[1..];
      HoldsJoin(m, p, [ds[0]], ds[1..]);
      HoldsJoin(m, p + 1, ds[1..], [COLON] + s);
      HoldsOne(m, p, ds[0]);
      BstrDigits(m, p + 1, ds[1..], len * 10 + DigitValue(ds[0]), s);
    }
  }

  /** Strings come back exactly when they are not empty. */
  lemma BstrTrip(m: seq<Byte>, p: nat, s: seq<Byte>)
    requires Holds(m, p, EncodeBstr(s))
    ensures IsDigit(At(m, p)) && (s == [] ==> DecodeBstr(m, p, 0) == None)
    ensures s != [] ==> DecodeBstr(m, p, 0) == Some((s, p + |EncodeBstr(s)|))
  {
    var ds := Decimal(|s|);
    DecimalSpells(|s|);
    assert EncodeBstr(s) == ds + ([COLON] + s);
    assert ds == [ds[0]] + ds[1..];
    HoldsJoin(m, p, ds, [COLON] + s);
    HoldsJoin(m, p, [ds[0]], ds[1..]);
    HoldsOne(m, p, ds[0]);
    BstrDigits(m, p, ds, 0, s);
  }

  /** No encoding starts like the end of a list. */
  lemma FirstByte(o: Obj)
    ensures Encode(o)[0] != CHAR_E
  {
    match o
    case Bstr(s) => DecimalSpells(|s|); assert Decimal(|s|)[0] in Decimal(|s|);
    case _ =>
  }

  lemma HoldsFirst(m: seq<Byte>, p: nat, s: seq<Byte>)
    requires s != [] && Holds(m, p, s)
    ensures At(m, p) == s[0]
  {
    assert m[p..p + |s|][0] == m[p];
  }

  /** The whole encoding, wherever it stands and whatever follows: it comes back
      and the cursor stops at its end if and only if no string in it is empty. */
  lemma {:induction false} RoundTrip(m: seq<Byte>, p: nat, o: Obj)
    requires Holds(m, p, Encode(o))
    ensures NoEmpty(o) ==> Decode(m, p) == Some((o, p + |Encode(o)|))
    ensures !NoEmpty(o) ==> Decode(m, p) == None
    decreases o
  {
    hide Holds;
    match o
    case Int(i) =>
      IntTrip(m, p, i);
    case Bstr(s) =>
      BstrTrip(m, p, s);
    case List(l) =>
      assert Encode(o) == [CHAR_L] + (EncodeList(l) + [CHAR_E]);
      HoldsJoin(m, p, [CHAR_L], EncodeList(l) + [CHAR_E]);
      HoldsOne(m, p, CHAR_L);
      ListTrip(m, p + 1, l);
    case Dict(d) =>
      assert Encode(o) == [CHAR_D] + (EncodeDict(d) + [CHAR_E]);
      HoldsJoin(m, p, [CHAR_D], EncodeDict(d) + [CHAR_E]);
      HoldsOne(m, p, CHAR_D);
      DictTrip(m, p + 1, d);
  }

  /** The empty string is printed and does not come back. */
  lemma EmptyStringLost()
    ensures Encode(Bstr([])) == [DIGIT_0, COLON] && Decode(Encode(Bstr([])), 0) == None
  {
    RoundTrip(Encode(Bstr([])), 0, Bstr([]));
  }

  lemma {:induction false} ListTrip(m: seq<Byte>, p: nat, l: seq<Obj>)
    requires Holds(m, p, EncodeList(l) + [CHAR_E])
    ensures NoEmptyList(l) ==> DecodeList(m, p) == Some((l, p + |EncodeList(l)| + 1))
    ensures !NoEmptyList(l) ==> DecodeList(m, p) == None
    decreases l
  {
    hide Holds;
    if l == [] {
      assert EncodeList(l) + [CHAR_E] == [CHAR_E];
      HoldsOne(m, p, CHAR_E);
    } else {
      var e, t := Encode(l[0]), EncodeList(l[1..]);
      assert EncodeList(l) + [CHAR_E] == e + (t + [CHAR_E]);
      HoldsJoin(m, p, e, t + [CHAR_E]);
      HoldsFirst(m, p, e);
      FirstByte(l[0]);
      RoundTrip(m, p, l[0]);
      ListTrip(m, p + |e|, l[1..]);
      assert [l[0]] + l[1..] == l;
    }
  }

  lemma {:induction false} DictTrip(m: seq<Byte>, p: nat, d: seq<Entry>)
    requires Holds(m, p, EncodeDict(d) + [CHAR_E])
    ensures NoEmptyDict(d) ==> DecodeDict(m, p) == Some((d, p + |EncodeDict(d)| + 1))
    ensures !NoEmptyDict(d) ==> DecodeDict(m, p) == None
    decreases d
  {
    hide Holds, DecodeDict, Decode, DecodeBstr, NoEmptyDict, NoEmpty, Encode, EncodeBstr;
    if d == [] {
      assert EncodeDict(d) + [CHAR_E] == [CHAR_E];
      HoldsOne(m, p, CHAR_E);
      DictEnd(m, p);
    } else {
      var k, e, t := EncodeBstr(d[0].key), Encode(d[0].val), EncodeDict(d[1..]);
      DictPieces(m, p, d, k, e, t);
      BstrTrip(m, p, d[0].key);
      RoundTrip(m, p + |k|, d[0].val);
      DictTrip(m, p + |k| + |e|, d[1..]);
      DictStep(m, p, d, p + |k|, p + |k| + |e|, p + |k| + |e| + |t| + 1);
    }
  }

  lemma DictEnd(m: seq<Byte>, p: nat)
    requires At(m, p) == CHAR_E
    ensures DecodeDict(m, p).Some? && DecodeDict(m, p).value == ([], p + 1) && NoEmptyDict([])
  {
  }

  /** One turn of the loop of `benc_dict_decode`. */
  lemma DictStep(m: seq<Byte>, p: nat, d: seq<Entry>, q: nat, r: nat, z: nat)
    requires d != [] && IsDigit(At(m, p)) && (d[0].key == [] ==> DecodeBstr(m, p, 0) == None)
    requires d[0].key != [] ==> DecodeBstr(m, p, 0) == Some((d[0].key, q))
    requires if NoEmpty(d[0].val) then Decode(m, q) == Some((d[0].val, r)) else Decode(m, q) == None
    requires if NoEmptyDict(d[1..]) then DecodeDict(m, r) == Some((d[1..], z)) else DecodeDict(m, r) == None
    ensures if NoEmptyDict(d) then DecodeDict(m, p) == Some((d, z)) else DecodeDict(m, p) == None
  {
    hide Decode, DecodeBstr, NoEmpty;
    assert [Entry(d[0].key, d[0].val)] + d[1..] == d;
  }

  lemma DictPieces(m: seq<Byte>, p: nat, d: seq<Entry>, k: seq<Byte>, e: seq<Byte>, t: seq<Byte>)
    requires d != [] && k == EncodeBstr(d[0].key) && e == Encode(d[0].val) && t == EncodeDict(d[1..])
    requires Holds(m, p, EncodeDict(d) + [CHAR_E])
    ensures Holds(m, p, k) && Holds(m, p + |k|, e) && Holds(m, p + |k| + |e|, t + [CHAR_E])
    ensures |EncodeDict(d)| == |k| + |e| + |t|
  {
    hide Holds, EncodeBstr, Encode;
    assert EncodeDict(d) + [CHAR_E] == k + (e + (t + [CHAR_E]));
    HoldsJoin(m, p, k, e + (t + [CHAR_E]));
    HoldsJoin(m, p + |k|, e, t + [CHAR_E]);
  }
}
