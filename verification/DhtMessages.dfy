/** The message printers of dht.c and what their bytes mean. */
module DhtMessages {
  import opened Bytes
  import opened Options
  import opened Bencode
  import opened DhtWire

  // ------------------------------------------------------ the buffer

  /** What is handed to `dht_send` for an intended message w: `snprintf` ends every
      piece with a NUL, so one that fills the buffer exactly loses its last byte. */
  function Outcome(w: seq<Byte>, size: nat): Option<seq<Byte>>
  {
    if |w| < size then Some(w)
    else if |w| == size && size > 0 then Some(w[..size - 1] + [0])
    else None
  }

  /** `char buf[size]` and the offset i of the printers, with the message they are
      to spell as a ghost. */
  class Printer {
    const buf: array<Byte>
    var i: nat
    ghost const full: seq<Byte>
    ghost var rest: seq<Byte>
    ghost var clipped: bool

    ghost predicate Valid()
      reads this, buf
    {
      && i <= buf.Length && i <= |full| && rest == full[i..]
      && (i < buf.Length ==> buf[..i] == full[..i])
      && (i == buf.Length && clipped ==> i > 0 && buf[..] == full[..i - 1] + [0])
    }

    constructor (size: nat, ghost full: seq<Byte>)
      ensures Valid() && buf.Length == size && rest == full == this.full && fresh(buf)
    {
      buf := new Byte[size](_ => 0);
      i := 0;
      this.full, rest, clipped := full, full, false;
    }

    /** `rc = snprintf(buf + i, size - i, ...); INC(i, rc, size)`. */
    method Print(s: seq<Byte>, ghost more: seq<Byte>) returns (ok: bool)
      requires Valid() && s != [] && rest == s + more
      modifies this, buf
      ensures ok ==> Valid() && rest == more && (i == buf.Length ==> clipped)
      ensures !ok ==> |full| > buf.Length
    {
      ghost var was := buf[..];
      var room := buf.Length - i;
      if room > 0 {
        var n := if |s| < room then |s| else room - 1;
        Store(s[..n] + [0]);
      }
      if i + |s| > buf.Length {
        return false;
      }
      PrintedPiece(full, was, buf[..], i, s, more);
      i := i + |s|;
      rest := more;
      clipped := true;
      ok := true;
    }

    /** `COPY(buf, i, src, delta, size)`. */
    method Copy(s: seq<Byte>, ghost more: seq<Byte>) returns (ok: bool)
      requires Valid() && rest == s + more
      modifies this, buf
      ensures ok ==> Valid() && rest == more
      ensures !ok ==> |full| > buf.Length
    {
      ghost var was := buf[..];
      if i + |s| > buf.Length {
        return false;
      }
      Store(s);
      CopiedPiece(full, was, buf[..], i, s, more);
      i := i + |s|;
      rest := more;
      if s != [] {
        clipped := false;
      }
      ok := true;
    }

    method Store(s: seq<Byte>)
      requires i + |s| <= buf.Length
      modifies buf
      ensures buf[..] == old(buf[..i]) + s + old(buf[i + |s|..])
    {
      ghost var was := buf[..];
      var k := 0;
      while k < |s|
        invariant 0 <= k <= |s|
        invariant forall x :: 0 <= x < k ==> buf[i + x] == s[x]
        invariant forall x :: 0 <= x < buf.Length && !(i <= x < i + k) ==> buf[x] == was[x]
      {
        buf[i + k] := s[k];
        k := k + 1;
      }
      assert buf[..i] == was[..i] && buf[i..i + |s|] == s && buf[i + |s|..] == was[i + |s|..];
      assert buf[..] == buf[..i] + buf[i..i + |s|] + buf[i + |s|..];
    }

    /** The message as `dht_send` gets it. */
    method Finish() returns (m: Option<seq<Byte>>)
      requires Valid() && rest == [] && (i == buf.Length ==> clipped)
      ensures m == Outcome(full, buf.Length)
    {
      assert i == |full| && full[..i] == full;
      assert i == buf.Length ==> buf[..i] == buf[..];
      m := Some(buf[..i]);
    }
  }

  lemma PrintedPiece(full: seq<Byte>, was: seq<Byte>, b: seq<Byte>, i: nat, s: seq<Byte>, more: seq<Byte>)
    requires i + |s| <= |was| == |b| && s != [] && i <= |full| && full[i..] == s + more
    requires i < |was| ==> was[..i] == full[..i]
    requires i < |was| ==> var n := if |s| < |was| - i then |s| else |was| - i - 1;
                           b == was[..i] + (s[..n] + [0]) + was[i + n + 1..]
    ensures i + |s| <= |full| && full[i + |s|..] == more
    ensures i + |s| < |b| ==> b[..i + |s|] == full[..i + |s|]
    ensures i + |s| == |b| ==> b == full[..i + |s| - 1] + [0]
  {
    assert full == full[..i] + (s + more);
    assert full[..i + |s|] == full[..i] + s;
  }

  lemma CopiedPiece(full: seq<Byte>, was: seq<Byte>, b: seq<Byte>, i: nat, s: seq<Byte>, more: seq<Byte>)
    requires i + |s| <= |was| == |b| && i <= |full| && full[i..] == s + more
    requires i < |was| ==> was[..i] == full[..i]
    requires b == was[..i] + s + was[i + |s|..]
    ensures i + |s| <= |full| && full[i + |s|..] == more
    ensures i + |s| < |b| ==> b[..i + |s|] == full[..i + |s|]
    ensures s == [] ==> b == was
  {
    assert full == full[..i] + (s + more);
    assert full[..i + |s|] == full[..i] + s;
  }

  // ----------------------------------------------------- meaning

  /** A dictionary that is not closed does not decode. */
  lemma {:induction false} Unclosed(m: seq<Byte>, p: nat, d: seq<Entry>)
    requires Holds(m, p, EncodeDict(d)) && At(m, p + |EncodeDict(d)|) == 0
    ensures DecodeDict(m, p) == None
    decreases d
  {
    hide Holds, DecodeDict, Decode, DecodeBstr, NoEmpty, Encode, EncodeBstr;
    if d == [] {
      OpenEnd(m, p);
    } else {
      var k, e, t := EncodeBstr(d[0].key), Encode(d[0].val), EncodeDict(d[1..]);
      Regroup(k, e, t);
      HoldsJoin(m, p, k, e + t);
      HoldsJoin(m, p + |k|, e, t);
      BstrTrip(m, p, d[0].key);
      RoundTrip(m, p + |k|, d[0].val);
      Unclosed(m, p + |k| + |e|, d[1..]);
      BrokenTail(m, p, p + |k|, p + |k| + |e|);
    }
  }

  lemma OpenEnd(m: seq<Byte>, p: nat)
    requires At(m, p) == 0
    ensures DecodeDict(m, p) == None
  {
  }

  lemma BrokenTail(m: seq<Byte>, p: nat, q: nat, r: nat)
    requires IsDigit(At(m, p)) && (DecodeBstr(m, p, 0) == None || DecodeBstr(m, p, 0).value.1 == q)
    requires (Decode(m, q) == None || Decode(m, q).value.1 == r) && DecodeDict(m, r) == None
    ensures DecodeDict(m, p) == None
  {
    hide Decode, DecodeBstr;
  }

  /** A message that fills its buffer exactly loses its closing letter to the NUL. */
  lemma Clipped(d: seq<Entry>, size: nat, m: seq<Byte>)
    requires |Encode(Dict(d))| == size && Outcome(Encode(Dict(d)), size) == Some(m)
    ensures Decode(m, 0) == None
  {
    hide Decode, DecodeDict, EncodeDict;
    var w, body := Encode(Dict(d)), EncodeDict(d);
    assert w == [CHAR_D] + (body + [CHAR_E]);
    assert w[..size - 1] == [CHAR_D] + body;
    OpenDict(m, body);
    Unclosed(m, 1, d);
    OpenDictFails(m);
  }

  /** What a peer reads: the intended dictionary and nothing after it, if and only
      if the message is shorter than the buffer and no string in it is empty. */
  lemma Understood(d: seq<Entry>, size: nat, m: seq<Byte>)
    requires Outcome(Encode(Dict(d)), size) == Some(m)
    ensures Decode(m, 0) == Some((Dict(d), |m|)) <==> NoEmptyDict(d) && |Encode(Dict(d))| < size
  {
    hide Encode, Decode, NoEmpty, NoEmptyDict;
    var w := Encode(Dict(d));
    DictNoEmpty(d);
    if |w| < size {
      assert Holds(m, 0, w);
      RoundTrip(m, 0, Dict(d));
    } else {
      Clipped(d, size, m);
    }
  }

  lemma DictNoEmpty(d: seq<Entry>)
    ensures NoEmpty(Dict(d)) <==> NoEmptyDict(d)
  {
  }

  lemma OpenDict(m: seq<Byte>, body: seq<Byte>)
    requires m == [CHAR_D] + body + [0]
    ensures At(m, 0) == CHAR_D && Holds(m, 1, body) && At(m, 1 + |body|) == 0
  {
  }

  lemma OpenDictFails(m: seq<Byte>)
    requires At(m, 0) == CHAR_D && DecodeDict(m, 1) == None
    ensures Decode(m, 0) == None
  {
  }
}
