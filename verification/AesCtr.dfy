/** seccure/aes256ctr.c: a byte stream cipher buffered over a block cipher in
    counter mode. The block cipher is an arbitrary keystream `ks`: byte i of
    block c is ks(16*c + i). */
module AesCtr {
  import opened Bytes

  const CIPHER_BLOCK_SIZE := 16

  /** Message xor keystream, from offset `pos` of the stream. */
  function XorStream(ks: nat -> Byte, pos: nat, s: seq<Byte>): (r: seq<Byte>)
    ensures |r| == |s|
  {
    seq(|s|, i requires 0 <= i < |s| => Xor(s[i], ks(pos + i)))
  }

  /** s with the stretch [lo, hi) encrypted from stream offset `pos`. */
  function XorRange(ks: nat -> Byte, pos: nat, s: seq<Byte>, lo: nat, hi: nat): (r: seq<Byte>)
    requires lo <= hi <= |s|
    ensures |r| == |s|
  {
    seq(|s|, j requires 0 <= j < |s| => if lo <= j < hi then Xor(s[j], ks(pos + (j - lo))) else s[j])
  }

  lemma XorRangeJoins(ks: nat -> Byte, pos: nat, s: seq<Byte>, lo: nat, mid: nat, hi: nat)
    requires lo <= mid <= hi <= |s|
    ensures XorRange(ks, pos + (mid - lo), XorRange(ks, pos, s, lo, mid), mid, hi) == XorRange(ks, pos, s, lo, hi)
  {
  }

  lemma XorRangeIsStream(ks: nat -> Byte, pos: nat, s: seq<Byte>, hi: nat)
    requires hi <= |s|
    ensures XorRange(ks, pos, s, 0, hi) == XorStream(ks, pos, s[..hi]) + s[hi..]
  {
  }

  /** One more byte of the stretch. */
  lemma XorRangeStep(ks: nat -> Byte, pos: nat, s: seq<Byte>, lo: nat, n: nat)
    requires lo + n < |s|
    ensures XorRange(ks, pos, s, lo, lo + n)[lo + n] == s[lo + n]
    ensures XorRange(ks, pos, s, lo, lo + n)[lo + n := Xor(s[lo + n], ks(pos + n))] ==
            XorRange(ks, pos, s, lo, lo + n + 1)
  {
  }

  lemma XorRangeNone(ks: nat -> Byte, pos: nat, s: seq<Byte>, lo: nat)
    requires lo <= |s|
    ensures XorRange(ks, pos, s, lo, lo) == s
  {
  }

  /** Zeros encrypt to the keystream itself. */
  lemma ZeroBlock(ks: nat -> Byte, pos: nat, s: seq<Byte>, n: nat)
    requires n <= |s| && forall i :: 0 <= i < n ==> s[i] == 0
    ensures forall i :: 0 <= i < n ==> XorRange(ks, pos, s, 0, n)[i] == ks(pos + i)
  {
    forall i | 0 <= i < n
      ensures XorRange(ks, pos, s, 0, n)[i] == ks(pos + i)
    {
      XorZero(ks(pos + i));
    }
  }

  class Aes256Ctr {
    const ks: nat -> Byte
    var blocks: nat            // counter inside the cipher handle
    var idx: nat
    const buf: array<Byte>

    ghost predicate Valid()
      reads this, buf
    {
      && buf.Length == CIPHER_BLOCK_SIZE
      && idx <= CIPHER_BLOCK_SIZE
      && (idx < CIPHER_BLOCK_SIZE ==> blocks >= 1 && HoldsBlock(blocks - 1))
    }

    ghost predicate HoldsBlock(c: nat)
      requires buf.Length == CIPHER_BLOCK_SIZE
      reads buf
    {
      forall i :: 0 <= i < CIPHER_BLOCK_SIZE ==> buf[i] == ks(CIPHER_BLOCK_SIZE * c + i)
    }

    /** How much of the keystream has been used. */
    ghost function Position(): nat
      reads this, buf
      requires Valid()
    {
      if idx < CIPHER_BLOCK_SIZE then CIPHER_BLOCK_SIZE * (blocks - 1) + idx else CIPHER_BLOCK_SIZE * blocks
    }

    constructor (ks: nat -> Byte)
      ensures Valid() && Position() == 0 && this.ks == ks && fresh(buf)
    {
      this.ks := ks;
      blocks, idx := 0, CIPHER_BLOCK_SIZE;
      buf := new Byte[CIPHER_BLOCK_SIZE];
    }

    /** `gcry_cipher_encrypt` on whole blocks at `off`. */
    method EncryptBlocks(b: array<Byte>, off: nat, n: nat)
      requires off + n <= b.Length && n % CIPHER_BLOCK_SIZE == 0
      modifies b, this`blocks
      ensures blocks == old(blocks) + n / CIPHER_BLOCK_SIZE
      ensures b[..] == XorRange(ks, CIPHER_BLOCK_SIZE * old(blocks), old(b[..]), off, off + n)
    {
      hide XorRange, Xor;
      ghost var s, p := b[..], CIPHER_BLOCK_SIZE * blocks;
      XorRangeNone(ks, p, s, off);
      var i := 0;
      while i < n
        invariant 0 <= i <= n && blocks == old(blocks)
        invariant b[..] == XorRange(ks, p, s, off, off + i)
      {
        XorRangeStep(ks, p, s, off, i);
        assert b[off + i] == b[..][off + i];
        b[off + i] := Xor(b[off + i], ks(CIPHER_BLOCK_SIZE * blocks + i));
        i := i + 1;
      }
      blocks := blocks + n / CIPHER_BLOCK_SIZE;
    }

    /** One of the byte loops: `for(; len && idx < SIZE; len--) *buf++ ^= ac->buf[ac->idx++]`. */
    method DrainBuffer(b: array<Byte>, off: nat, len: nat) returns (n: nat)
      requires Valid() && b != buf && off + len <= b.Length
      modifies b, this`idx
      ensures Valid() && n <= len && (n < len ==> idx == CIPHER_BLOCK_SIZE)
      ensures n == 0 || idx == old(idx) + n
      ensures old(idx) == 0 && len < CIPHER_BLOCK_SIZE ==> n == len
      ensures Position() == old(Position()) + n
      ensures b[..] == XorRange(ks, old(Position()), old(b[..]), off, off + n)
    {
      hide XorRange, Xor;
      ghost var s, p := b[..], Position();
      XorRangeNone(ks, p, s, off);
      n := 0;
      while n < len && idx < CIPHER_BLOCK_SIZE
        invariant Valid() && 0 <= n <= len && idx == old(idx) + n && Position() == p + n
        invariant b[..] == XorRange(ks, p, s, off, off + n)
      {
        XorRangeStep(ks, p, s, off, n);
        assert b[off + n] == b[..][off + n] && buf[idx] == ks(p + n);
        b[off + n] := Xor(b[off + n], buf[idx]);
        idx := idx + 1;
        n := n + 1;
      }
    }

    /** `aes256ctr_enc` (and `aes256ctr_dec`). */
    method Enc(b: array<Byte>, len: nat)
      requires Valid() && b != buf && len <= b.Length
      modifies this, b, buf
      ensures Valid() && Position() == old(Position()) + len
      ensures b[..len] == XorStream(ks, old(Position()), old(b[..len]))
      ensures b[len..] == old(b[len..])
    {
      hide XorRange, XorStream, HoldsBlock;
      ghost var s, p := b[..], Position();
      var n := DrainBuffer(b, 0, len);
      var full := EncFullBlocks(b, n, len);
      XorRangeJoins(ks, p, s, 0, n, n + full);
      EncTail(b, n + full, len);
      XorRangeJoins(ks, p, s, 0, n + full, len);
      XorRangeIsStream(ks, p, s, len);
      assert b[..len] == b[..][..len] && b[len..] == b[..][len..];
    }

    /** What is left after the whole blocks, from a fresh block of keystream. */
    method EncTail(b: array<Byte>, off: nat, len: nat)
      requires Valid() && b != buf && off <= len <= b.Length && len - off < CIPHER_BLOCK_SIZE
      requires off < len ==> idx == CIPHER_BLOCK_SIZE
      modifies this, b, buf
      ensures Valid() && Position() == old(Position()) + (len - off)
      ensures b[..] == XorRange(ks, old(Position()), old(b[..]), off, len)
    {
      if off < len {
        RefillBuffer();
        hide XorRange, HoldsBlock;
        var m := DrainBuffer(b, off, len - off);
      } else {
        XorRangeNone(ks, Position(), b[..], off);
      }
    }

    /** The middle of the message, in one call of the block cipher. */
    method EncFullBlocks(b: array<Byte>, off: nat, len: nat) returns (full: nat)
      requires Valid() && b != buf && off <= len <= b.Length
      requires off < len ==> idx == CIPHER_BLOCK_SIZE
      modifies b, this`blocks
      ensures Valid() && off + full <= len < off + full + CIPHER_BLOCK_SIZE && Position() == old(Position()) + full
      ensures b[..] == XorRange(ks, old(Position()), old(b[..]), off, off + full)
    {
      full := (len - off) / CIPHER_BLOCK_SIZE * CIPHER_BLOCK_SIZE;
      EncryptBlocks(b, off, full);
    }

    /** A block of zeros encrypted into the buffer is a block of keystream. */
    method RefillBuffer()
      requires Valid() && idx == CIPHER_BLOCK_SIZE
      modifies this, buf
      ensures Valid() && idx == 0 && Position() == old(Position())
    {
      hide XorRange;
      forall i | 0 <= i < CIPHER_BLOCK_SIZE {
        buf[i] := 0;
      }
      ZeroBlock(ks, CIPHER_BLOCK_SIZE * blocks, buf[..], CIPHER_BLOCK_SIZE);
      EncryptBlocks(buf, 0, CIPHER_BLOCK_SIZE);
      assert forall i :: 0 <= i < CIPHER_BLOCK_SIZE ==> buf[i] == buf[..][i];
      idx := 0;
    }

    /** `aes256cprng_fillbuf`: the next len bytes of keystream. */
    method FillBuf(b: array<Byte>, len: nat)
      requires Valid() && b != buf && len <= b.Length
      modifies this, b, buf
      ensures Valid() && Position() == old(Position()) + len
      ensures forall i :: 0 <= i < len ==> b[i] == ks(old(Position()) + i)
      ensures b[len..] == old(b[len..])
    {
      ghost var p := Position();
      forall i | 0 <= i < len {
        b[i] := 0;
      }
      ghost var zeros := b[..len];
      Enc(b, len);
      forall i | 0 <= i < len
        ensures b[i] == ks(p + i)
      {
        XorZero(ks(p + i));
        assert b[i] == b[..len][i] && zeros[i] == 0;
      }
    }

    /** `Enc` on a buffer that holds exactly this piece. */
    method EncPiece(s: seq<Byte>) returns (r: seq<Byte>)
      requires Valid()
      modifies this, buf
      ensures Valid() && Position() == old(Position()) + |s|
      ensures r == XorStream(ks, old(Position()), s)
    {
      hide XorStream, HoldsBlock;
      var b := new Byte[|s|](j requires 0 <= j < |s| => s[j]);
      assert b[..] == s == b[..|s|];
      Enc(b, |s|);
      r := b[..|s|];
    }

    /** A run of `Enc` calls on this context, one for each piece of a message:
        the pieces come out as if the message had been encrypted in one call. */
    method EncMessage(pieces: seq<seq<Byte>>) returns (out: seq<Byte>)
      requires Valid()
      modifies this, buf
      ensures Valid() && Position() == old(Position()) + |out|
      ensures out == XorStream(ks, old(Position()), Flatten(pieces))
    {
      hide Xor, XorStream, HoldsBlock, EncryptPieces, Flatten;
      ghost var p, whole := Position(), EncryptPieces(ks, Position(), pieces);
      out := [];
      for i := 0 to |pieces|
        invariant Valid() && Position() == p + |out|
        invariant out + EncryptPieces(ks, Position(), pieces[i..]) == whole
      {
        NextPiece(ks, Position(), pieces, i);
        var r := EncPiece(pieces[i]);
        Regroup(out, r, EncryptPieces(ks, Position(), pieces[i + 1..]));
        out := out + r;
      }
      NoPiece(ks, Position(), pieces[|pieces|..]);
      CuttingIrrelevant(ks, p, pieces);
    }
  }

  // ------------------------------------------- independence of cutting

  function Flatten(pieces: seq<seq<Byte>>): seq<Byte>
  {
    if pieces == [] then [] else pieces[0] + Flatten(pieces[1..])
  }

  /** Pieces follow each other, and one piece is itself. */
  lemma {:induction false} FlattenJoin(a: seq<seq<Byte>>, b: seq<seq<Byte>>, s: seq<Byte>)
    ensures Flatten(a + b) == Flatten(a) + Flatten(b) && Flatten([s]) == s
    decreases |a|
  {
    assert [s][1..] == [];
    if a == [] {
      assert a + b == b;
    } else {
      FlattenJoin(a[1..], b, s);
      assert (a + b)[1..] == a[1..] + b;
    }
  }

  /** What successive `Enc` calls on the pieces produce, by the contract of
      `Enc`: each continues at the position the last one reached. */
  function EncryptPieces(ks: nat -> Byte, pos: nat, pieces: seq<seq<Byte>>): seq<Byte>
    decreases |pieces|
  {
    if pieces == [] then [] else
      XorStream(ks, pos, pieces[0]) + EncryptPieces(ks, pos + |pieces[0]|, pieces[1..])
  }

  lemma NoPiece(ks: nat -> Byte, pos: nat, pieces: seq<seq<Byte>>)
    requires pieces == []
    ensures EncryptPieces(ks, pos, pieces) == []
  {
  }

  lemma Regroup(a: seq<Byte>, b: seq<Byte>, c: seq<Byte>)
    ensures a + (b + c) == (a + b) + c
  {
  }

  lemma NextPiece(ks: nat -> Byte, pos: nat, pieces: seq<seq<Byte>>, i: nat)
    requires i < |pieces|
    ensures EncryptPieces(ks, pos, pieces[i..]) ==
            XorStream(ks, pos, pieces[i]) + EncryptPieces(ks, pos + |pieces[i]|, pieces[i + 1..])
  {
    assert pieces[i..][1..] == pieces[i + 1..];
  }

  lemma XorStreamAppend(ks: nat -> Byte, pos: nat, s: seq<Byte>, t: seq<Byte>)
    ensures XorStream(ks, pos, s + t) == XorStream(ks, pos, s) + XorStream(ks, pos + |s|, t)
  {
  }

  lemma {:induction false} CuttingIrrelevant(ks: nat -> Byte, pos: nat, pieces: seq<seq<Byte>>)
    ensures EncryptPieces(ks, pos, pieces) == XorStream(ks, pos, Flatten(pieces))
    decreases |pieces|
  {
    hide XorStream;
    if pieces == [] {
      assert |XorStream(ks, pos, [])| == 0;
    } else {
      CuttingIrrelevant(ks, pos + |pieces[0]|, pieces[1..]);
      XorStreamAppend(ks, pos, pieces[0], Flatten(pieces[1..]));
    }
  }

  lemma XorStreamCancels(ks: nat -> Byte, pos: nat, s: seq<Byte>)
    ensures XorStream(ks, pos, XorStream(ks, pos, s)) == s
  {
    forall i | 0 <= i < |s|
      ensures XorStream(ks, pos, XorStream(ks, pos, s))[i] == s[i]
    {
      XorCancel(s[i], ks(pos + i));
    }
  }

  /** s cut at the given lengths; what is left over is the last piece. */
  function Cut(s: seq<Byte>, lengths: seq<nat>): (pieces: seq<seq<Byte>>)
    ensures Flatten(pieces) == s
    decreases |lengths|
  {
    if lengths == [] || lengths[0] > |s| then
      assert [s][1..] == [];
      [s]
    else
      var rest := Cut(s[lengths[0]..], lengths[1..]);
      var pieces := [s[..lengths[0]]] + rest;
      assert pieces[1..] == rest;
      pieces
  }

  /** Two contexts with one key: what the first encrypts piece by piece, the
      second decrypts under a cutting of its own. */
  method EncryptThenDecrypt(ks: nat -> Byte, plain: seq<seq<Byte>>, lengths: seq<nat>) returns (out: seq<Byte>)
    ensures out == Flatten(plain)
  {
    hide XorStream;
    var sender := new Aes256Ctr(ks);
    var cipher := sender.EncMessage(plain);
    var receiver := new Aes256Ctr(ks);
    out := receiver.EncMessage(Cut(cipher, lengths));
    XorStreamCancels(ks, 0, Flatten(plain));
  }
}
