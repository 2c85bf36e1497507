/** The output stream: a window of a memory buffer, or a sizing stream that only counts. */
module OutputStream {
  import opened Basics
  import opened EncodeSpec

  /** The state of an output stream as a value, with the whole buffer. */
  datatype OState = OState(sizing: bool, mem: bytes, pos: nat, max: nat, written: nat) {
    predicate Valid() {
      !sizing ==> written <= max && pos + (max - written) <= |mem|
    }

    /** How many bytes can still be written. */
    function Room(): nat
      requires Valid() && !sizing
    {
      max - written
    }
  }

  /** From a to b the stream took one or more writes within its window, and nothing else changed. */
  predicate Within(a: OState, b: OState)
    requires a.Valid() && b.Valid()
  {
    b.sizing == a.sizing && b.max == a.max && |b.mem| == |a.mem| &&
    if a.sizing then b.mem == a.mem
    else
      a.pos <= b.pos && b.pos + b.Room() == a.pos + a.Room() &&
      b.mem[..a.pos] == a.mem[..a.pos] && b.mem[a.pos + a.Room()..] == a.mem[a.pos + a.Room()..]
  }

  /** An attempt to write e (None for data that cannot be encoded), which succeeds when it fits, and then appends exactly e. */
  predicate Wrote(a: OState, b: OState, e: Option<bytes>, ok: bool) {
    a.Valid() && b.Valid() && Within(a, b) &&
    (ok <==> e.Some? && (a.sizing || |e.value| <= a.Room())) &&
    (ok ==> b.written == a.written + |e.value|) &&
    (ok && !a.sizing ==>
      b.pos == a.pos + |e.value| && b.mem == a.mem[..a.pos] + e.value + a.mem[b.pos..])
  }

  lemma WroteNothing(a: OState)
    requires a.Valid()
    ensures Wrote(a, a, Some([]), true)
  {
    if !a.sizing {
      assert a.mem == a.mem[..a.pos] + [] + a.mem[a.pos..];
    }
  }

  lemma WroteValid(a: OState, b: OState, e: Option<bytes>, ok: bool)
    requires Wrote(a, b, e, ok)
    ensures a.Valid() && b.Valid() && b.sizing == a.sizing
  {
  }

  /** Writes in sequence write the concatenation, or stop at the first failure. */
  lemma WroteThen(a: OState, b: OState, c: OState, e1: Option<bytes>, e2: Option<bytes>, ok: bool)
    requires Wrote(a, b, e1, true) && Wrote(b, c, e2, ok)
    ensures Wrote(a, c, Join(e1, e2), ok)
  {
    if !a.sizing {
      var n := a.pos + a.Room();
      assert c.mem[..a.pos] == c.mem[..b.pos][..a.pos] == b.mem[..b.pos][..a.pos] == b.mem[..a.pos];
      if ok {
        assert b.mem[..b.pos] == a.mem[..a.pos] + e1.value;
        assert b.mem[c.pos..] == a.mem[c.pos..] by {
          assert b.mem[c.pos..] == b.mem[b.pos..][c.pos - b.pos..];
          assert b.mem[b.pos..] == a.mem[b.pos..];
        }
        assert c.mem == a.mem[..a.pos] + (e1.value + e2.value) + a.mem[c.pos..];
      }
    }
  }

  /** After a failed write nothing more is written. */
  lemma WroteFailed(a: OState, b: OState, e1: Option<bytes>, e2: Option<bytes>)
    requires Wrote(a, b, e1, false)
    ensures Wrote(a, b, Join(e1, e2), false)
  {
  }

  /** Writing the next byte of data over mem at dest. */
  lemma NextByte(mem: bytes, dest: nat, data: bytes, i: nat)
    requires dest + |data| <= |mem| && i < |data|
    ensures (mem[..dest] + data[..i] + mem[dest + i..])[dest + i := data[i]] ==
            mem[..dest] + data[..i + 1] + mem[dest + i + 1..]
  {
  }

  class OStream {
    const sizing: bool
    const buf: array<byte>
    var pos: nat
    var maxSize: nat
    var bytesWritten: nat

    ghost function State(): OState
      reads this, buf
    {
      OState(sizing, buf[..], pos, maxSize, bytesWritten)
    }

    ghost predicate Valid()
      reads this, buf
    {
      State().Valid()
    }

    /** pb_ostream_from_buffer, and the copy with its own limits that a submessage is written to. */
    constructor FromBuffer(buf: array<byte>, pos: nat, size: nat)
      requires pos + size <= buf.Length
      ensures Valid() && this.buf == buf && State() == OState(false, buf[..], pos, size, 0)
    {
      this.sizing := false;
      this.buf := buf;
      this.pos := pos;
      maxSize := size;
      bytesWritten := 0;
    }

    /** PB_OSTREAM_SIZING. */
    constructor Sizing()
      ensures Valid() && State() == OState(true, [], 0, 0, 0) && fresh(buf)
    {
      sizing := true;
      buf := new byte[0];
      pos := 0;
      maxSize := 0;
      bytesWritten := 0;
    }

    /** pb_write with data. */
    method Write(data: bytes) returns (ok: bool)
      requires Valid()
      modifies this, buf
      ensures Wrote(old(State()), State(), Some(data), ok)
    {
      if |data| > 0 && !sizing {
        if bytesWritten + |data| > maxSize {
          return false;
        }
        BufWrite(data);
      }
      bytesWritten := bytesWritten + |data|;
      return true;
    }

    /** pb_write without data, which only a sizing stream is given. */
    method WriteSize(count: nat) returns (ok: bool)
      requires Valid() && sizing
      modifies this
      ensures ok && Valid() && bytesWritten == old(bytesWritten) + count
      ensures State() == old(State()).(written := bytesWritten)
    {
      bytesWritten := bytesWritten + count;
      return true;
    }

    /** buf_write. */
    method BufWrite(data: bytes)
      requires pos + |data| <= buf.Length
      modifies this`pos, buf
      ensures pos == old(pos) + |data|
      ensures buf[..] == old(buf[..pos]) + data + old(buf[pos + |data|..])
    {
      var dest := pos;
      ghost var mem := buf[..];
      pos := dest + |data|;
      for i := 0 to |data|
        invariant pos == dest + |data|
        invariant buf[..] == mem[..dest] + data[..i] + mem[dest + i..]
      {
        NextByte(mem, dest, data, i);
        buf[dest + i] := data[i];
      }
    }
  }
}
