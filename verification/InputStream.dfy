/** The input stream: a window of a memory buffer that is read from its front. */
module InputStream {
  import opened Basics
  import opened Varint
  import opened EncodeSpec
  import opened DecodeSpec

  /** The state of an input stream as a value, with the whole buffer. */
  datatype IState = IState(mem: bytes, pos: nat, left: nat) {
    predicate Valid() {
      pos + left <= |mem|
    }

    /** The bytes that can still be read. */
    function Left(): (b: bytes)
      requires Valid()
      ensures |b| == left
    {
      mem[pos..pos + left]
    }

    /** Where the window ends. */
    function End(): nat {
      pos + left
    }
  }

  /** From a to b the stream was read up to rest: the end of its window has not moved. */
  predicate Consumed(a: IState, b: IState, rest: bytes)
    requires a.Valid() && b.Valid()
  {
    b.mem == a.mem && b.End() == a.End() && b.Left() == rest
  }

  /** An attempt to read what p says: it succeeds as p does, and never leaves the window. */
  predicate Read<T>(a: IState, b: IState, p: Parsed<T>, ok: bool) {
    a.Valid() && b.Valid() && b.mem == a.mem && a.pos <= b.pos && b.End() <= a.End() &&
    (ok <==> p.Got?) && (ok ==> Consumed(a, b, p.rest))
  }

  lemma Refused<T>(a: IState, b: IState, p: Parsed<T>)
    requires a.Valid() && b.Valid() && b.mem == a.mem && a.pos <= b.pos && b.End() <= a.End() && p.Bad?
    ensures Read(a, b, p, false)
  {
  }

  /** The definition of Varint32From, round by round. */
  lemma Varint32Round(w: bytes, bitpos: nat, acc: nat)
    requires acc < TWO_32
    ensures w == [] ==> Varint32From(w, bitpos, acc) == Bad
    ensures w != [] ==>
              var c := w[0];
              var acc' := if bitpos >= 32 then acc else Or(acc, Low32(Shl(c % 128, bitpos)));
              var bitpos' := (bitpos + 7) % 256;
              acc' < TWO_32 &&
              Varint32From(w, bitpos, acc) ==
              if bitpos >= 32 && c % 128 != 0 && (acc < TWO_31 || c != if bitpos < 63 then 0xFF else 0x01) then Bad
              else if c >= 128 then Varint32From(w[1..], bitpos', acc')
              else if bitpos' == 35 && c >= 16 then Bad
              else Got(acc', w[1..])
  {
    hide Or, Shl, Low32;
    if w != [] {
      OrWords(acc, Low32(Shl(w[0] % 128, bitpos)));
    }
  }

  /** The definition of Varint64From, round by round. */
  lemma Varint64Round(w: bytes, bitpos: nat, acc: nat)
    requires acc < TWO_64
    ensures w == [] || bitpos >= 64 ==> Varint64From(w, bitpos, acc) == Bad
    ensures w != [] && bitpos < 64 ==>
              var c := w[0];
              var acc' := Or(acc, Low64(Shl(c % 128, bitpos)));
              acc' < TWO_64 &&
              Varint64From(w, bitpos, acc) == if c < 128 then Got(acc', w[1..]) else Varint64From(w[1..], bitpos + 7, acc')
  {
    hide Or, Shl, Low64;
    if w != [] {
      OrWords(acc, Low64(Shl(w[0] % 128, bitpos)));
    }
  }

  lemma NothingToRead(w: bytes)
    ensures w == [] ==> Varint32(w) == Bad
  {
  }

  /** From a, a substream sub was split off, which leaves p: the record's length was read, its content is in sub. */
  predicate Apart(a: IState, p: IState, sub: IState) {
    a.Valid() && Frame(a.Left()).Got? && p.mem == sub.mem == a.mem && a.pos <= p.pos == sub.pos &&
    sub.End() + p.left == a.End() && sub.Left() == Frame(a.Left()).v &&
    a.mem[sub.End()..a.End()] == Frame(a.Left()).rest
  }

  lemma Slices(mem: bytes, pos: nat, left: nat, size: nat)
    requires size <= left && pos + left <= |mem|
    ensures mem[pos..pos + left][..size] == mem[pos..pos + size]
    ensures mem[pos..pos + left][size..] == mem[pos + size..pos + left]
  {
  }

  lemma SplitOff(a: IState, b: IState, size: nat)
    requires a.Valid() && Read(a, b, Varint32(a.Left()), true) && size == Varint32(a.Left()).v <= b.left
    ensures Apart(a, b.(left := b.left - size), b.(left := size)) && size < a.left
  {
    hide Varint32;
    Slices(b.mem, b.pos, b.left, size);
    assert b.pos + b.left == a.End();
  }

  lemma ApartFits(a: IState, p: IState, sub: IState)
    requires Apart(a, p, sub)
    ensures sub.Valid() && sub.End() + p.left <= |a.mem| && sub.Left() == Frame(a.Left()).v
  {
  }

  /**
    Closing a substream conserves the parent: its cursor lands on the end of the record, and
    what it can still read is what follows the record, however much of the substream was read.
   */
  lemma Rejoin<T>(a: IState, p: IState, sub: IState, sub': IState, c: IState, q: Parsed<T>, ok: bool)
    requires Apart(a, p, sub)
    requires sub'.mem == sub.mem && sub.pos <= sub'.pos && sub'.End() <= sub.End()
    requires c == IState(a.mem, sub'.End(), p.left)
    requires (ok <==> q.Got?) && (ok ==> sub'.End() == sub.End() && q.rest == Frame(a.Left()).rest)
    ensures Read(a, c, q, ok)
  {
    hide Frame;
    if ok {
      assert c.Left() == a.mem[sub.End()..a.End()];
    }
  }

  class IStream {
    const buf: array<byte>
    var pos: nat
    var bytesLeft: nat

    ghost predicate Valid()
      reads this
    {
      pos + bytesLeft <= buf.Length
    }

    ghost function State(): (st: IState)
      reads this, buf
      ensures Valid() ==> st.Valid()
    {
      IState(buf[..], pos, bytesLeft)
    }

    ghost function Left(): (b: bytes)
      requires Valid()
      reads this, buf
      ensures |b| == bytesLeft && b == State().Left()
    {
      State().Left()
    }

    /** pb_istream_from_buffer, and the copy with its own limit that a substream is. */
    constructor (buf: array<byte>, pos: nat, size: nat)
      requires pos + size <= buf.Length
      ensures Valid() && this.buf == buf && this.pos == pos && bytesLeft == size
    {
      this.buf := buf;
      this.pos := pos;
      bytesLeft := size;
    }

    /** pb_readbyte. */
    method ReadByte() returns (ok: bool, b: byte)
      requires Valid()
      modifies this
      ensures Valid() && Read(old(State()), State(), Take(1, old(Left())), ok)
      ensures ok <==> old(Left()) != []
      ensures ok ==> b == old(Left())[0] && Left() == old(Left())[1..]
      ensures !ok ==> pos == old(pos) && bytesLeft == 0
    {
      if bytesLeft == 0 {
        return false, 0;
      }
      b := buf[pos];
      pos := pos + 1;
      bytesLeft := bytesLeft - 1;
      ok := true;
    }

    /** pb_read into a buffer, whose new content is returned. */
    method ReadBytes(count: nat) returns (ok: bool, data: bytes)
      requires Valid()
      modifies this
      ensures Valid() && Read(old(State()), State(), Take(count, old(Left())), ok)
      ensures ok ==> data == Take(count, old(Left())).v
    {
      if count == 0 {
        return true, [];
      }
      if bytesLeft < count {
        return false, [];
      }
      data := BufRead(count);
      assert old(Left())[..count] == buf[old(pos)..old(pos) + count];
      bytesLeft := bytesLeft - count;
      ok := true;
    }

    /** buf_read. */
    method BufRead(count: nat) returns (data: bytes)
      requires pos + count <= buf.Length
      modifies this`pos
      ensures pos == old(pos) + count && data == buf[old(pos)..pos]
    {
      var source := pos;
      pos := pos + count;
      data := [];
      for i := 0 to count
        invariant data == buf[source..source + i]
      {
        data := data + [buf[source + i]];
      }
    }

    /** pb_read without a buffer. */
    method SkipBytes(count: nat) returns (ok: bool)
      requires Valid()
      modifies this
      ensures Valid() && Read(old(State()), State(), Take(count, old(Left())), ok)
    {
      if bytesLeft < count {
        return false;
      }
      pos := pos + count;
      bytesLeft := bytesLeft - count;
      ok := true;
    }

    // ---------- Integers and tags ----------

    /** pb_decode_varint32_eof; eof says that there was nothing to read. */
    method DecodeVarint32Eof() returns (ok: bool, result: nat, eof: bool)
      requires Valid()
      modifies this
      ensures Valid() && Read(old(State()), State(), Varint32(old(Left())), ok)
      ensures ok ==> result == Varint32(old(Left())).v
      ensures eof <==> old(Left()) == []
    {
      hide Varint32From;
      var b;
      ok, b := ReadByte();
      if !ok {
        return false, 0, true;
      }
      eof := false;
      if b < 128 {
        return true, b, false;
      }
      ok, result := DecodeVarint32Multi(b % 128);
    }

    /** The multi-byte loop of pb_decode_varint32_eof. */
    method DecodeVarint32Multi(first: nat) returns (ok: bool, result: nat)
      requires Valid() && first < 128
      modifies this
      ensures Valid() && Read(old(State()), State(), Varint32From(old(Left()), 7, first), ok)
      ensures ok ==> result == Varint32From(old(Left()), 7, first).v
    {
      hide Or, Shl, Low32, Varint32From;
      var bitpos: nat := 7;
      result := first;
      ghost var target := Varint32From(Left(), 7, first);
      while true
        invariant Valid() && pos + bytesLeft == old(pos + bytesLeft) && old(pos) <= pos
        invariant result < TWO_32 && Varint32From(Left(), bitpos, result) == target
        decreases bytesLeft
      {
        Varint32Round(Left(), bitpos, result);
        var b;
        ok, b := ReadByte();
        if !ok {
          return;
        }
        if bitpos >= 32 {
          var signExtension := if bitpos < 63 then 0xFF else 0x01;
          if b % 128 != 0 && (result < TWO_31 || b != signExtension) {
            ok := false;
            return;
          }
        } else {
          result := Or(result, Low32(Shl(b % 128, bitpos)));
        }
        bitpos := (bitpos + 7) % 256;
        if b < 128 {
          ok := !(bitpos == 35 && b >= 16);
          return;
        }
      }
    }

    /** pb_decode_varint32. */
    method DecodeVarint32() returns (ok: bool, result: nat)
      requires Valid()
      modifies this
      ensures Valid() && Read(old(State()), State(), Varint32(old(Left())), ok)
      ensures ok ==> result == Varint32(old(Left())).v
    {
      var eof;
      ok, result, eof := DecodeVarint32Eof();
    }

    /** pb_decode_varint. */
    method DecodeVarint() returns (ok: bool, result: nat)
      requires Valid()
      modifies this
      ensures Valid() && Read(old(State()), State(), Varint64(old(Left())), ok)
      ensures ok ==> result == Varint64(old(Left())).v
    {
      hide Or, Shl, Low64, Varint64From;
      var bitpos: nat := 0;
      result := 0;
      ghost var target := Varint64From(Left(), 0, 0);
      while true
        invariant Valid() && pos + bytesLeft == old(pos + bytesLeft) && old(pos) <= pos
        invariant result < TWO_64 && Varint64From(Left(), bitpos, result) == target
        decreases bytesLeft
      {
        Varint64Round(Left(), bitpos, result);
        if bitpos >= 64 {
          ok := false;
          return;
        }
        var b;
        ok, b := ReadByte();
        if !ok {
          return;
        }
        result := Or(result, Low64(Shl(b % 128, bitpos)));
        bitpos := bitpos + 7;
        if b < 128 {
          return;
        }
      }
    }

    /** pb_skip_varint. */
    method SkipVarintBytes() returns (ok: bool)
      requires Valid()
      modifies this
      ensures Valid() && Read(old(State()), State(), SkipVarint(old(Left())), ok)
    {
      ghost var target := SkipVarint(Left());
      while true
        invariant Valid() && pos + bytesLeft == old(pos + bytesLeft) && old(pos) <= pos
        invariant SkipVarint(Left()) == target
        decreases bytesLeft
      {
        var b;
        ok, b := ReadByte();
        if !ok || b < 128 {
          return;
        }
      }
    }

    /** pb_skip_string. */
    method SkipString() returns (ok: bool)
      requires Valid()
      modifies this
      ensures Valid() && Read(old(State()), State(), Frame(old(Left())), ok)
    {
      hide Varint32;
      var length;
      ok, length := DecodeVarint32();
      if ok {
        ok := SkipBytes(length);
      }
    }

    /** pb_skip_field. */
    method SkipField(wt: nat) returns (ok: bool)
      requires Valid()
      modifies this
      ensures Valid() && Read(old(State()), State(), Skip(wt, old(Left())), ok)
    {
      hide SkipVarint, Frame, Take;
      if wt == WT_VARINT {
        ok := SkipVarintBytes();
      } else if wt == WT_64BIT {
        ok := SkipBytes(8);
      } else if wt == WT_STRING {
        ok := SkipString();
      } else if wt == WT_32BIT {
        ok := SkipBytes(4);
      } else {
        ok := false;
      }
    }

    /** pb_decode_tag; eof says that the message ends here, by its bytes or by a zero. */
    method DecodeTag() returns (ok: bool, wt: nat, tag: nat, eof: bool)
      requires Valid()
      modifies this
      ensures Valid() && State().mem == old(State().mem) && old(pos) <= pos && State().End() <= old(State().End())
      ensures var r := DecTag(old(Left()));
              (ok <==> r.TagOk?) && (eof <==> r.NoTag? || old(Left()) == []) &&
              (ok ==> tag == r.tag && wt == r.wt && Consumed(old(State()), State(), r.rest)) &&
              (r.NoTag? ==> Consumed(old(State()), State(), r.rest))
    {
      hide Varint32;
      var temp;
      wt, tag := 0, 0;
      ok, temp, eof := DecodeVarint32Eof();
      if !ok {
        NothingToRead(old(Left()));
        return;
      }
      if temp == 0 {
        eof := true;
        ok := false;
        return;
      }
      tag := temp / 8;
      wt := temp % 8;
    }

    // ---------- Substreams ----------

    /**
      pb_make_string_substream: the substream is a window on the declared length, which the
      parent no longer counts as its own although its cursor is still in front of it.
     */
    method MakeSubstream() returns (ok: bool, sub: IStream)
      requires Valid()
      modifies this
      ensures Valid() && State().mem == old(State().mem) && old(pos) <= pos && State().End() <= old(State().End())
      ensures fresh(sub) && sub.Valid() && sub.buf == buf
      ensures ok <==> Frame(old(Left())).Got?
      ensures ok ==> Apart(old(State()), State(), sub.State()) && sub.bytesLeft < old(bytesLeft)
    {
      hide Varint32, Apart;
      ghost var a := State();
      var size;
      ok, size := DecodeVarint32();
      ghost var b := State();
      sub := new IStream(buf, pos, bytesLeft);
      if !ok {
        return;
      }
      if sub.bytesLeft < size {
        ok := false;
        return;
      }
      sub.bytesLeft := size;
      bytesLeft := bytesLeft - size;
      SplitOff(a, b, size);
    }

    /** pb_close_string_substream: whatever was read of the substream, the parent goes on behind it. */
    method CloseSubstream(sub: IStream) returns (ok: bool)
      requires Valid() && sub.Valid() && sub != this && sub.buf == buf
      requires sub.pos + sub.bytesLeft + bytesLeft <= buf.Length
      modifies this, sub
      ensures ok && Valid() && bytesLeft == old(bytesLeft) && pos == old(sub.pos + sub.bytesLeft)
    {
      ok := true;
      if sub.bytesLeft != 0 {
        ok := sub.SkipBytes(sub.bytesLeft);
      }
      pos := sub.pos;
    }
  }
}
