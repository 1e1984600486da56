/** libbenc's cursor code: `bbuf_t`, the encoders that write through it and the
    decoders that read through it. */
module BencodeBuffer {
  import opened Bytes
  import opened Options
  import opened Bencode

  const INT64_MAX: int := 0x7FFF_FFFF_FFFF_FFFF

  /** Integers whose negation the C type can hold. */
  predicate InRange(o: Obj)
    decreases o
  {
    match o
    case Int(i) => -INT64_MAX <= i <= INT64_MAX
    case Bstr(_) => true
    case List(l) => forall k :: 0 <= k < |l| ==> InRange(l[k])
    case Dict(d) => forall k :: 0 <= k < |d| ==> InRange(d[k].val)
  }

  function EncodedEntry(e: Entry): seq<Byte>
  {
    EncodeBstr(e.key) + Encode(e.val)
  }

  /** b' is b with s written at p. */
  predicate Wrote(b: seq<Byte>, b': seq<Byte>, p: nat, s: seq<Byte>)
  {
    p + |s| <= |b| && b' == b[..p] + s + b[p + |s|..]
  }

  lemma WroteJoin(b: seq<Byte>, b1: seq<Byte>, b2: seq<Byte>, p: nat, s: seq<Byte>, t: seq<Byte>)
    requires Wrote(b, b1, p, s) && Wrote(b1, b2, p + |s|, t)
    ensures Wrote(b, b2, p, s + t)
  {
    assert b1[..p + |s|] == b[..p] + s;
    assert b1[p + |s| + |t|..] == b[p + |s| + |t|..];
  }

  lemma WroteAll(b: seq<Byte>, b': seq<Byte>, p: nat, s: seq<Byte>)
    requires |b'| == |b| && p + |s| <= |b|
    requires forall x :: 0 <= x < |s| ==> b'[p + x] == s[x]
    requires forall x :: 0 <= x < |b| && !(p <= x < p + |s|) ==> b'[x] == b[x]
    ensures Wrote(b, b', p, s)
  {
    assert b'[..p] == b[..p] && b'[p..p + |s|] == s && b'[p + |s|..] == b[p + |s|..];
    assert b' == b'[..p] + b'[p..p + |s|] + b'[p + |s|..];
  }

  lemma WroteHolds(b: seq<Byte>, b': seq<Byte>, p: nat, s: seq<Byte>)
    requires Wrote(b, b', p, s)
    ensures Holds(b', p, s) && |b'| == |b|
  {
  }

  /** Between ptr and resume stands w, elsewhere b is as before. */
  predicate Filled(was: seq<Byte>, b: seq<Byte>, ptr: nat, resume: nat, w: seq<Byte>)
  {
    && |was| == |b| && ptr + |w| == resume <= |b|
    && b[..ptr] == was[..ptr] && b[ptr..resume] == w && b[resume..] == was[resume..]
  }

  lemma FilledStart(was: seq<Byte>, resume: nat)
    requires resume <= |was|
    ensures Filled(was, was, resume, resume, [])
  {
  }

  lemma FilledMore(was: seq<Byte>, b: seq<Byte>, ptr: nat, resume: nat, w: seq<Byte>, c: Byte)
    requires Filled(was, b, ptr + 1, resume, w)
    ensures Filled(was, b[ptr := c], ptr, resume, [c] + w)
  {
    var b' := b[ptr := c];
    assert b'[..ptr] == b[..ptr + 1][..ptr] && was[..ptr] == was[..ptr + 1][..ptr];
    assert b'[ptr..resume] == [c] + b[ptr + 1..resume];
    assert b'[resume..] == b[resume..];
  }

  lemma FilledWrote(was: seq<Byte>, b: seq<Byte>, ptr: nat, resume: nat, w: seq<Byte>)
    requires Filled(was, b, ptr, resume, w)
    ensures Wrote(was, b, ptr, w)
  {
    assert b == b[..ptr] + b[ptr..resume] + b[resume..];
  }

  /** The digits still to be written. */
  function Rest(i: nat): seq<Byte>
  {
    if i == 0 then [] else Decimal(i)
  }

  lemma FirstDigit(n: nat)
    ensures Decimal(n) == Rest(n / 10) + [DIGIT_0 + n % 10]
  {
  }

  lemma NextDigit(n: nat, i: nat, w: seq<Byte>)
    requires i > 0 && Decimal(n) == Rest(i) + w
    ensures Decimal(n) == Rest(i / 10) + ([DIGIT_0 + i % 10] + w) && |w| < |Decimal(n)|
  {
    FirstDigit(i);
    assert Decimal(i) + w == Rest(i / 10) + [DIGIT_0 + i % 10] + w;
  }

  // ------------------------------------------------------------ sizes

  /** `pseudo_log10`: how many decimal digits. */
  method PseudoLog10(i0: nat) returns (n: nat)
    ensures n == |Decimal(i0)|
  {
    var i: nat := i0 / 10;
    n := 1;
    while i > 0
      invariant |Decimal(i0)| == n + if i == 0 then 0 else |Decimal(i)|
      decreases i
    {
      n := n + 1;
      i := i / 10;
    }
  }

  /** `benc_int_repsize`. */
  method IntRepsize(i0: int) returns (n: nat)
    ensures n == |EncodeInt(i0)|
  {
    var i := i0;
    n := 2;
    if i < 0 {
      n := n + 1;
      i := -i;
    }
    var digits := PseudoLog10(i);
    n := n + digits;
  }

  /** `benc_bstr_repsize`. */
  method BstrRepsize(s: seq<Byte>) returns (n: nat)
    ensures n == |EncodeBstr(s)|
  {
    var digits := PseudoLog10(|s|);
    n := 1 + digits + |s|;
  }

  /** `bobj_repsize`: exactly what the encoder will write. */
  method Repsize(o: Obj) returns (n: nat)
    ensures n == |Encode(o)|
    decreases o
  {
    match o
    case Int(i) => n := IntRepsize(i);
    case Bstr(s) => n := BstrRepsize(s);
    case List(l) =>
      n := 2;
      var k := 0;
      while k < |l|
        invariant 0 <= k <= |l| && n + |EncodeList(l[k..])| == |Encode(o)|
      {
        var m := Repsize(l[k]);
        n := n + m;
        k := k + 1;
      }
    case Dict(d) =>
      n := 2;
      var k := 0;
      while k < |d|
        invariant 0 <= k <= |d| && n + |EncodeDict(d[k..])| == |Encode(o)|
      {
        var m := BstrRepsize(d[k].key);
        n := n + m;
        m := Repsize(d[k].val);
        n := n + m;
        k := k + 1;
      }
  }

  /** `bbuf_t`. */
  class Buf {
    const base: array<Byte>
    const len: nat
    var ptr: nat

    ghost predicate Valid()
      reads this
    {
      base.Length == len
    }

    /** `bbuf_new` around a block of memory. */
    constructor (base: array<Byte>)
      ensures Valid() && this.base == base && ptr == 0
    {
      this.base, len, ptr := base, base.Length, 0;
    }

    /** `bbuf_inc_ptr`. */
    method IncPtr() returns (ok: bool)
      requires Valid()
      modifies this
      ensures ptr == old(ptr) + 1 && (ok <==> ptr <= len)
    {
      ptr := ptr + 1;
      ok := ptr <= len;
    }

    // ------------------------------------------------------ encoding

    /** `*(b->ptr)++ = c`. */
    method Put(c: Byte)
      requires Valid() && ptr < len
      modifies this, base
      ensures Valid() && ptr == old(ptr) + 1 && Wrote(old(base[..]), base[..], old(ptr), [c])
    {
      base[ptr] := c;
      ptr := ptr + 1;
    }

    /** The digit loop both number encoders share: backwards from the place where
        the last digit goes. */
    method PutDecimal(n: nat)
      requires Valid() && ptr + |Decimal(n)| <= len
      modifies this, base
      ensures Valid() && ptr == old(ptr) + |Decimal(n)| && Wrote(old(base[..]), base[..], old(ptr), Decimal(n))
    {
      hide Decimal, Filled, Wrote;
      var digits := PseudoLog10(n);
      ghost var was, start, w: seq<Byte> := base[..], ptr, [];
      ptr := ptr + digits;
      var resume := ptr;
      var i := n;
      FirstDigit(n);
      FilledStart(was, resume);
      PutDigit(i, was, resume, w);
      w := [DIGIT_0 + i % 10] + w;
      i := i / 10;
      while i > 0
        invariant Valid() && |w| <= digits && ptr == resume - |w| && Filled(was, base[..], ptr, resume, w)
        invariant Decimal(n) == Rest(i) + w
        decreases i
      {
        NextDigit(n, i, w);
        PutDigit(i, was, resume, w);
        w := [DIGIT_0 + i % 10] + w;
        i := i / 10;
      }
      assert Rest(0) + w == w;
      FilledWrote(was, base[..], start, resume, w);
      ptr := resume;
    }

    /** `*--(b->ptr) = '0' + i % 10`. */
    method PutDigit(i: nat, ghost was: seq<Byte>, ghost resume: nat, ghost w: seq<Byte>)
      requires Valid() && 0 < ptr <= resume <= len && Filled(was, base[..], ptr, resume, w)
      modifies this, base
      ensures ptr == old(ptr) - 1 && Filled(was, base[..], ptr, resume, [DIGIT_0 + i % 10] + w)
    {
      ghost var b := base[..];
      ptr := ptr - 1;
      base[ptr] := DIGIT_0 + i % 10;
      FilledMore(was, b, ptr, resume, w, DIGIT_0 + i % 10);
      ghost var c: Byte := DIGIT_0 + i % 10;
      assert base[..] == b[ptr := c];
    }

    /** `memcpy(b->ptr, s, len)` and the advance behind it. */
    method PutBytes(s: seq<Byte>)
      requires Valid() && ptr + |s| <= len
      modifies this, base
      ensures Valid() && ptr == old(ptr) + |s| && Wrote(old(base[..]), base[..], old(ptr), s)
    {
      ghost var was := base[..];
      var k := 0;
      while k < |s|
        invariant 0 <= k <= |s| && ptr == old(ptr)
        invariant forall x :: 0 <= x < k ==> base[ptr + x] == s[x]
        invariant forall x :: 0 <= x < len && !(ptr <= x < ptr + k) ==> base[x] == was[x]
      {
        base[ptr + k] := s[k];
        k := k + 1;
      }
      WroteAll(was, base[..], ptr, s);
      ptr := ptr + |s|;
    }

    /** `benc_int_encode`. */
    method EncodeIntAt(i0: int)
      requires Valid() && -INT64_MAX <= i0 <= INT64_MAX && ptr + |EncodeInt(i0)| <= len
      modifies this, base
      ensures Valid() && ptr == old(ptr) + |EncodeInt(i0)| && Wrote(old(base[..]), base[..], old(ptr), EncodeInt(i0))
    {
      hide Wrote, Decimal, EncodeInt, IntHead;
      ghost var b0, p := base[..], ptr;
      IntPieces(i0);
      var i := PutHead(i0);
      ghost var b1, s := base[..], IntHead(i0);
      PutDecimal(i);
      WroteJoin(b0, b1, base[..], p, s, Decimal(i));
      b1, s := base[..], s + Decimal(i);
      Put(CHAR_E);
      WroteJoin(b0, b1, base[..], p, s, [CHAR_E]);
    }

    /** The letter and the sign, and the magnitude left to print. */
    method PutHead(i0: int) returns (i: nat)
      requires Valid() && ptr + |IntHead(i0)| <= len
      modifies this, base
      ensures Valid() && i == Magnitude(i0) && ptr == old(ptr) + |IntHead(i0)|
      ensures Wrote(old(base[..]), base[..], old(ptr), IntHead(i0))
    {
      hide Wrote;
      ghost var b0, p := base[..], ptr;
      Put(CHAR_I);
      if i0 < 0 {
        i := -i0;
        ghost var b1 := base[..];
        Put(MINUS);
        WroteJoin(b0, b1, base[..], p, [CHAR_I], [MINUS]);
      } else {
        i := i0;
      }
    }

    /** `benc_bstr_encode`. */
    method EncodeBstrAt(x: seq<Byte>)
      requires Valid() && ptr + |EncodeBstr(x)| <= len
      modifies this, base
      ensures Valid() && ptr == old(ptr) + |EncodeBstr(x)| && Wrote(old(base[..]), base[..], old(ptr), EncodeBstr(x))
    {
      hide Wrote, Decimal;
      ghost var b0, p := base[..], ptr;
      PutDecimal(|x|);
      ghost var b1, s := base[..], Decimal(|x|);
      Put(COLON);
      WroteJoin(b0, b1, base[..], p, s, [COLON]);
      b1, s := base[..], s + [COLON];
      PutBytes(x);
      WroteJoin(b0, b1, base[..], p, s, x);
    }

    /** `bobj_encode`: exactly the encoding of the object, at the cursor, and
        nothing else. */
    method EncodeAt(o: Obj)
      requires Valid() && InRange(o) && ptr + |Encode(o)| <= len
      modifies this, base
      ensures Valid() && ptr == old(ptr) + |Encode(o)| && Wrote(old(base[..]), base[..], old(ptr), Encode(o))
      decreases o, 0
    {
      match o
      case Int(i) => EncodeIntAt(i);
      case Bstr(s) => EncodeBstrAt(s);
      case List(l) => EncodeListAt(o, l);
      case Dict(d) => EncodeDictAt(o, d);
    }

    /** `benc_list_encode`. */
    method EncodeListAt(o: Obj, l: seq<Obj>)
      requires o == List(l) && Valid() && InRange(o) && ptr + |Encode(o)| <= len
      modifies this, base
      ensures Valid() && ptr == old(ptr) + |Encode(o)| && Wrote(old(base[..]), base[..], old(ptr), Encode(o))
      decreases l
    {
      hide Wrote, Encode, InRange, ListLeft;
      ghost var b0, p := base[..], ptr;
      ListStart(l);
      Put(CHAR_L);
      ghost var s := [CHAR_L];
      var k := 0;
      while k < |l|
        invariant 0 <= k <= |l| && Valid() && ptr == p + |s| && Wrote(b0, base[..], p, s)
        invariant ListLeft(o, l, k, s)
      {
        ListNext(o, l, k, s);
        EncodeElement(l[k], b0, p, s);
        s := s + Encode(l[k]);
        k := k + 1;
      }
      ListClose(o, l, s);
      PutEnd(b0, p, s);
    }

    /** One element of a list, behind what is printed already. */
    method EncodeElement(e: Obj, ghost b0: seq<Byte>, ghost p: nat, ghost s: seq<Byte>)
      requires Valid() && InRange(e) && ptr == p + |s| && Wrote(b0, base[..], p, s) && ptr + |Encode(e)| <= len
      modifies this, base
      ensures Valid() && ptr == p + |s + Encode(e)| && Wrote(b0, base[..], p, s + Encode(e))
      decreases e, 1
    {
      hide Wrote, Encode, InRange;
      ghost var b1 := base[..];
      EncodeAt(e);
      WroteJoin(b0, b1, base[..], p, s, Encode(e));
    }

    /** The closing letter, behind what is printed already. */
    method PutEnd(ghost b0: seq<Byte>, ghost p: nat, ghost s: seq<Byte>)
      requires Valid() && ptr == p + |s| && Wrote(b0, base[..], p, s) && ptr < len
      modifies this, base
      ensures Valid() && ptr == p + |s + [CHAR_E]| && Wrote(b0, base[..], p, s + [CHAR_E])
    {
      hide Wrote;
      ghost var b1 := base[..];
      Put(CHAR_E);
      WroteJoin(b0, b1, base[..], p, s, [CHAR_E]);
    }

    /** `benc_dict_encode`. */
    method EncodeDictAt(o: Obj, d: seq<Entry>)
      requires o == Dict(d) && Valid() && InRange(o) && ptr + |Encode(o)| <= len
      modifies this, base
      ensures Valid() && ptr == old(ptr) + |Encode(o)| && Wrote(old(base[..]), base[..], old(ptr), Encode(o))
      decreases d
    {
      hide Wrote, Encode, EncodedEntry, InRange, DictLeft;
      ghost var b0, p := base[..], ptr;
      DictStart(d);
      Put(CHAR_D);
      ghost var s := [CHAR_D];
      var k := 0;
      while k < |d|
        invariant 0 <= k <= |d| && Valid() && ptr == p + |s| && Wrote(b0, base[..], p, s)
        invariant DictLeft(o, d, k, s)
      {
        DictNext(o, d, k, s);
        EncodeEntry(d[k], b0, p, s);
        s := s + EncodedEntry(d[k]);
        k := k + 1;
      }
      DictClose(o, d, s);
      PutEnd(b0, p, s);
    }

    /** One entry, the key and then the value, behind what is printed already. */
    method EncodeEntry(e: Entry, ghost b0: seq<Byte>, ghost p: nat, ghost s: seq<Byte>)
      requires Valid() && InRange(e.val) && ptr == p + |s| && Wrote(b0, base[..], p, s)
      requires ptr + |EncodedEntry(e)| <= len
      modifies this, base
      ensures Valid() && ptr == p + |s + EncodedEntry(e)| && Wrote(b0, base[..], p, s + EncodedEntry(e))
      decreases e
    {
      hide Wrote, Encode, EncodeBstr, InRange;
      ghost var b1 := base[..];
      EncodeBstrAt(e.key);
      WroteJoin(b0, b1, base[..], p, s, EncodeBstr(e.key));
      EncodeElement(e.val, b0, p, s + EncodeBstr(e.key));
      assert s + EncodeBstr(e.key) + Encode(e.val) == s + (EncodeBstr(e.key) + Encode(e.val));
    }

    // ------------------------------------------------------ decoding

    /** `*(b->ptr)`. */
    function Peek(): (c: Byte)
      requires Valid()
      reads this, base
      ensures c == At(base[..], ptr)
    {
      if ptr < len then base[ptr] else 0
    }

    /** `benc_int_decode`. */
    method DecodeIntAt() returns (r: Option<int>)
      requires Valid() && ptr < len
      modifies this
      ensures Agrees(r, ptr, DecodeInt(base[..], old(ptr)))
    {
      ghost var m, p := base[..], ptr;
      var more := IncPtr();
      var acc: nat := 0;
      var sign := 1;
      var c := Peek();
      if c == MINUS {
        sign := -1;
      } else if IsDigit(c) {
        acc := DigitValue(c);
      } else {
        return None;
      }
      ghost var start, acc0 := ptr, acc;
      more := IncPtr();
      while more
        invariant Valid() && ptr > start && (more <==> ptr <= len) && base[..] == m
        invariant DecodeDigits(m, start, acc0) == DecodeDigits(m, ptr - 1, acc)
        decreases len + 1 - ptr
      {
        c := Peek();
        if IsDigit(c) {
          acc := acc * 10 + DigitValue(c);
        } else if c == CHAR_E {
          more := IncPtr();
          return Some(acc * sign);
        } else {
          return None;
        }
        more := IncPtr();
      }
      r := None;
    }

    /** `benc_bstr_decode`. */
    method DecodeBstrAt() returns (r: Option<seq<Byte>>)
      requires Valid()
      modifies this
      ensures Agrees(r, ptr, DecodeBstr(base[..], old(ptr), 0))
    {
      ghost var m, p := base[..], ptr;
      var n: nat := 0;
      var more := true;
      while more
        invariant Valid() && base[..] == m && (more || ptr > len)
        invariant DecodeBstr(m, p, 0) == DecodeBstr(m, ptr, n)
        decreases len + 2 - ptr, more
      {
        var c := Peek();
        if IsDigit(c) {
          n := n * 10 + DigitValue(c);
        } else if c == COLON {
          more := IncPtr();
          if ptr + n > len {
            return None;
          }
          if n == 0 {
            return None;
          }
          r := Some(base[ptr..ptr + n]);
          ptr := ptr + n;
          return;
        } else {
          return None;
        }
        more := IncPtr();
      }
      r := None;
    }

    /** `bdec_mem`: reads what the object grammar says, and leaves the cursor behind it. */
    method DecodeAt() returns (r: Option<Obj>)
      requires Valid()
      modifies this
      ensures Agrees(r, ptr, Decode(base[..], old(ptr)))
      decreases len + 1 - ptr, 0
    {
      var c := Peek();
      if c == CHAR_I {
        var i := DecodeIntAt();
        r := if i.None? then None else Some(Int(i.value));
      } else if c == CHAR_L {
        var more := IncPtr();
        var l := DecodeListAt();
        r := if l.None? then None else Some(List(l.value));
      } else if c == CHAR_D {
        var more := IncPtr();
        var d := DecodeDictAt();
        r := if d.None? then None else Some(Dict(d.value));
      } else if IsDigit(c) {
        var s := DecodeBstrAt();
        r := if s.None? then None else Some(Bstr(s.value));
      } else {
        r := None;
      }
    }

    /** The loop of `benc_list_decode`: elements go behind the last one. */
    method DecodeListAt() returns (r: Option<seq<Obj>>)
      requires Valid()
      modifies this
      ensures Agrees(r, ptr, DecodeList(base[..], old(ptr)))
      decreases len + 1 - ptr, 1
    {
      ghost var m, p := base[..], ptr;
      var l := [];
      PrefixNone(DecodeList(m, p));
      while Peek() != CHAR_E
        invariant Valid() && base[..] == m && (ptr == p || p < ptr <= len)
        invariant DecodeList(m, p) == Prefixed(l, DecodeList(m, ptr))
        decreases len + 1 - ptr
      {
        ListTurn(m, ptr, l);
        var elem := DecodeAt();
        if elem.None? {
          return None;
        }
        l := l + [elem.value];
      }
      PrefixEnd(l, ptr);
      var more := IncPtr();
      r := Some(l);
    }

    /** The loop of `benc_dict_decode`. */
    method DecodeDictAt() returns (r: Option<seq<Entry>>)
      requires Valid()
      modifies this
      ensures Agrees(r, ptr, DecodeDict(base[..], old(ptr)))
      decreases len + 1 - ptr, 1
    {
      ghost var m, p := base[..], ptr;
      var d := [];
      PrefixNone(DecodeDict(m, p));
      while Peek() != CHAR_E
        invariant Valid() && base[..] == m && (ptr == p || p < ptr <= len)
        invariant DecodeDict(m, p) == Prefixed(d, DecodeDict(m, ptr))
        decreases len + 1 - ptr
      {
        DictTurn(m, ptr, d);
        var key := DecodeBstrAt();
        if key.None? {
          return None;
        }
        var val := DecodeAt();
        if val.None? {
          return None;
        }
        d := d + [Entry(key.value, val.value)];
      }
      PrefixEnd(d, ptr);
      var more := IncPtr();
      r := Some(d);
    }
  }

  /** Result and cursor are those of the parsing function. */
  predicate Agrees<T(==)>(r: Option<T>, ptr: nat, parsed: Parsed<T>)
  {
    if parsed.None? then r.None? else r.Some? && parsed.value == (r.value, ptr)
  }

  /** Elements read earlier go before those of the rest. */
  function Prefixed<T>(l: seq<T>, rest: Parsed<seq<T>>): Parsed<seq<T>>
  {
    match rest
    case None => None
    case Some(w) => Some((l + w.0, w.1))
  }

  lemma PrefixNone<T>(rest: Parsed<seq<T>>)
    ensures Prefixed([], rest) == rest
  {
    if rest.Some? { assert [] + rest.value.0 == rest.value.0; }
  }

  lemma PrefixEnd<T>(l: seq<T>, p: nat)
    ensures Prefixed(l, Some(([], p + 1))) == Some((l, p + 1))
  {
    assert l + [] == l;
  }

  lemma ListTurn(m: seq<Byte>, p: nat, l: seq<Obj>)
    requires At(m, p) != CHAR_E
    ensures Decode(m, p).None? ==> Prefixed(l, DecodeList(m, p)) == None
    ensures Decode(m, p).Some? ==>
              Prefixed(l, DecodeList(m, p)) == Prefixed(l + [Decode(m, p).value.0], DecodeList(m, Decode(m, p).value.1))
  {
    hide Decode;
    if Decode(m, p).Some? {
      var v := Decode(m, p).value;
      if DecodeList(m, v.1).Some? {
        var w := DecodeList(m, v.1).value.0;
        assert l + ([v.0] + w) == (l + [v.0]) + w;
      }
    }
  }

  lemma DictTurn(m: seq<Byte>, p: nat, d: seq<Entry>)
    requires At(m, p) != CHAR_E
    ensures DecodeBstr(m, p, 0).None? ==> Prefixed(d, DecodeDict(m, p)) == None
    ensures DecodeBstr(m, p, 0).Some? && Decode(m, DecodeBstr(m, p, 0).value.1).None? ==>
      Prefixed(d, DecodeDict(m, p)) == None
    ensures DecodeBstr(m, p, 0).Some? && Decode(m, DecodeBstr(m, p, 0).value.1).Some? ==>
              var k := DecodeBstr(m, p, 0).value;
              var v := Decode(m, k.1).value;
              Prefixed(d, DecodeDict(m, p)) == Prefixed(d + [Entry(k.0, v.0)], DecodeDict(m, v.1))
  {
    hide Decode, DecodeBstr;
    if DecodeBstr(m, p, 0).Some? {
      var k := DecodeBstr(m, p, 0).value;
      if Decode(m, k.1).Some? {
        var v := Decode(m, k.1).value;
        if DecodeDict(m, v.1).Some? {
          var w := DecodeDict(m, v.1).value.0;
          assert d + ([Entry(k.0, v.0)] + w) == (d + [Entry(k.0, v.0)]) + w;
        }
      }
    }
  }

  /** Sized, printed and parsed again, with whatever bytes around it: the object
      comes back exactly when no string in it is empty, and the cursor stops at
      the end of its encoding. */
  method PrintAndParse(o: Obj, before: nat, after: nat) returns (r: Option<Obj>, used: nat, size: nat)
    requires InRange(o)
    ensures size == |Encode(o)|
    ensures NoEmpty(o) ==> r == Some(o) && used == before + size
    ensures !NoEmpty(o) ==> r == None
  {
    hide Encode, Decode, NoEmpty, Wrote, InRange;
    size := Repsize(o);
    var base := new Byte[before + size + after](_ => 0);
    var b := new Buf(base);
    b.ptr := before;
    ghost var was := base[..];
    b.EncodeAt(o);
    WroteHolds(was, base[..], before, Encode(o));
    RoundTrip(base[..], before, o);
    b.ptr := before;
    r := b.DecodeAt();
    used := b.ptr;
  }

  function Magnitude(i: int): nat
  {
    if i < 0 then -i else i
  }

  function IntHead(i: int): seq<Byte>
  {
    if i < 0 then [CHAR_I] + [MINUS] else [CHAR_I]
  }

  lemma IntPieces(i: int)
    ensures EncodeInt(i) == IntHead(i) + Decimal(Magnitude(i)) + [CHAR_E]
  {
    hide Decimal;
  }

  /** The encoding of a list, printed up to its k-th element. */
  ghost predicate ListLeft(o: Obj, l: seq<Obj>, k: nat, s: seq<Byte>)
  {
    o == List(l) && k <= |l| && Encode(o) == s + EncodeList(l[k..]) + [CHAR_E]
  }

  lemma ListStart(l: seq<Obj>)
    ensures ListLeft(List(l), l, 0, [CHAR_L])
  {
    assert l[0..] == l;
  }

  lemma ListNext(o: Obj, l: seq<Obj>, k: nat, s: seq<Byte>)
    requires ListLeft(o, l, k, s) && k < |l| && InRange(o)
    ensures ListLeft(o, l, k + 1, s + Encode(l[k])) && |s| + |Encode(l[k])| < |Encode(o)| && InRange(l[k])
  {
    assert l[k..][0] == l[k] && l[k..][1..] == l[k + 1..];
    assert EncodeList(l[k..]) == Encode(l[k]) + EncodeList(l[k + 1..]);
    hide Encode, EncodeList;
  }

  lemma ListClose(o: Obj, l: seq<Obj>, s: seq<Byte>)
    requires ListLeft(o, l, |l|, s)
    ensures Encode(o) == s + [CHAR_E]
  {
    assert l[|l|..] == [];
  }

  /** The same for a dictionary and its entries. */
  ghost predicate DictLeft(o: Obj, d: seq<Entry>, k: nat, s: seq<Byte>)
  {
    o == Dict(d) && k <= |d| && Encode(o) == s + EncodeDict(d[k..]) + [CHAR_E]
  }

  lemma DictStart(d: seq<Entry>)
    ensures DictLeft(Dict(d), d, 0, [CHAR_D])
  {
    assert d[0..] == d;
  }

  lemma DictNext(o: Obj, d: seq<Entry>, k: nat, s: seq<Byte>)
    requires DictLeft(o, d, k, s) && k < |d| && InRange(o)
    ensures DictLeft(o, d, k + 1, s + EncodedEntry(d[k])) && |s| + |EncodedEntry(d[k])| < |Encode(o)|
    ensures InRange(d[k].val)
  {
    assert d[k..][0] == d[k] && d[k..][1..] == d[k + 1..];
    assert EncodeDict(d[k..]) == EncodeBstr(d[k].key) + Encode(d[k].val) + EncodeDict(d[k + 1..]);
    hide Encode, EncodeDict, EncodeBstr;
  }

  lemma DictClose(o: Obj, d: seq<Entry>, s: seq<Byte>)
    requires DictLeft(o, d, |d|, s)
    ensures Encode(o) == s + [CHAR_E]
  {
    assert d[|d|..] == [];
  }
}
