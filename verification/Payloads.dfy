/**
  Exactly which bytes the decoder accepts for a value, and what they mean, in plain numbers; and the
  rules of the field loop that are about more than one record.
 */
module Payloads {
  import opened Basics
  import opened Varint
  import opened Scalars
  import opened Message
  import opened EncodeSpec
  import opened DecodeSpec
  import opened Logical
  import opened RoundTripItems
  import opened RoundTrip
  import opened Merge

  // ---------- Integers ----------

  /**
    A signed field takes any 64-bit varint that agrees with a value of the field on the low 32 bits, or on
    all 64 bits if the field has eight bytes, and gets that value.
   */
  lemma VarIntExact(f: Field, b: bytes, w: int, rest: bytes)
    requires f.ltype.VarInt? && WFType(f)
    ensures var p, word := Varint64(b), if f.dataSize == 8 then 0x1_0000_0000_0000_0000 else 0x1_0000_0000;
            DecScalar(f, b) == Got(w, rest) <==>
            p.Got? && p.rest == rest && SignedFits(f.dataSize, w) && (w - p.v) % word == 0
  {
    hide Varint64;
    if Varint64(b).Got? {
      var n := Varint64(b).v;
      if f.dataSize == 8 {
        LowWord64(n, w);
      } else {
        LowWord32(n, w);
      }
    }
  }

  lemma LowWord64(n: nat, w: int)
    requires n < TWO_64
    ensures Signed64(n) == w <==> SignedFits(8, w) && (w - n) % 0x1_0000_0000_0000_0000 == 0
  {
  }

  lemma LowWord32(n: nat, w: int)
    ensures Signed32(Low32(n)) == w <==> SignedFits(4, w) && (w - n) % 0x1_0000_0000 == 0
  {
    var q, r := n / 0x1_0000_0000, Low32(n);
    assert n == 0x1_0000_0000 * q + r;
    assert (w - n) % 0x1_0000_0000 == 0 <==> (w - r) % 0x1_0000_0000 == 0;
  }

  /** A negative 32-bit number that was sent without sign extension is taken for what it was. */
  lemma UnextendedNegative(f: Field, i: int, x: bytes)
    requires f.ltype.VarInt? && f.dataSize == 4 && -0x8000_0000 <= i < 0
    ensures DecScalar(f, EncVarint(0x1_0000_0000 + i) + x) == Got(i, x)
  {
    hide EncVarint, Varint64;
    Varint64RoundTrip(0x1_0000_0000 + i, x);
    VarIntExact(f, EncVarint(0x1_0000_0000 + i) + x, i, x);
  }

  lemma UVarIntExact(f: Field, b: bytes, w: int, rest: bytes)
    requires f.ltype.UVarInt? && WFType(f)
    ensures DecScalar(f, b) == Got(w, rest) <==>
            Varint64(b).Got? && Varint64(b).rest == rest && Varint64(b).v == w && UnsignedFits(f.dataSize, w)
  {
    hide Varint64;
  }

  /** Numbers of a ZigZag field alternate: 0, -1, 1, -2, 2 and so on. */
  lemma SVarIntExact(f: Field, b: bytes, w: int, rest: bytes)
    requires f.ltype.SVarInt? && WFType(f)
    ensures DecScalar(f, b) == Got(w, rest) <==>
            Varint64(b).Got? && Varint64(b).rest == rest && SignedFits(f.dataSize, w) &&
            Varint64(b).v == if w < 0 then -2 * w - 1 else 2 * w
  {
    hide Varint64;
    if Varint64(b).Got? && SignedFits(f.dataSize, w) {
      SignedRange(f.dataSize, w);
      ZigZagInverse(w, Varint64(b).v);
    }
  }

  lemma BoolExact(f: Field, b: bytes, w: int, rest: bytes)
    requires f.ltype.Bool? && WFType(f)
    ensures DecScalar(f, b) == Got(w, rest) <==>
            Varint32(b).Got? && Varint32(b).rest == rest && w == if Varint32(b).v == 0 then 0 else 1
  {
    hide Varint32;
  }

  lemma FixedExact(f: Field, b: bytes, w: int, rest: bytes)
    requires WFType(f)
    ensures f.ltype.Fixed32? ==>
              (DecScalar(f, b) == Got(w, rest) <==> |b| >= 4 && rest == b[4..] && w == WordOf(b[..4]))
    ensures f.ltype.Fixed64? ==>
              (DecScalar(f, b) == Got(w, rest) <==>
                |b| >= 8 && rest == b[8..] && w == WordOf(b[..4]) + 0x1_0000_0000 * WordOf(b[4..8]))
  {
    if f.ltype.Fixed32? && |b| >= 4 {
      FourBytes(b[..4]);
    }
    if f.ltype.Fixed64? && |b| >= 8 {
      EightBytes(b[..8]);
      assert b[..8][..4] == b[..4] && b[..8][4..] == b[4..8];
    }
  }

  lemma FromLittleNext(b: bytes)
    requires b != []
    ensures FromLittle(b) == b[0] + 256 * FromLittle(b[1..])
  {
  }

  lemma FromLittleFour(b: bytes)
    requires |b| >= 4
    ensures FromLittle(b) == WordOf(b[..4]) + 0x1_0000_0000 * FromLittle(b[4..])
  {
    hide FromLittle;
    FromLittleNext(b);
    FromLittleNext(b[1..]);
    FromLittleNext(b[2..]);
    FromLittleNext(b[3..]);
    assert b[1..][1..] == b[2..] && b[2..][1..] == b[3..] && b[3..][1..] == b[4..];
  }

  lemma FourBytes(b: bytes)
    requires |b| == 4
    ensures FromLittle(b) == WordOf(b)
  {
    FromLittleFour(b);
    assert b[..4] == b;
  }

  lemma EightBytes(b: bytes)
    requires |b| == 8
    ensures FromLittle(b) == WordOf(b[..4]) + 0x1_0000_0000 * WordOf(b[4..])
  {
    FromLittleFour(b);
    FourBytes(b[4..]);
  }

  // ---------- Bytes and strings ----------

  lemma BytesExact(f: Field, prev: bytes, b: bytes, v: bytes, rest: bytes)
    requires f.ltype.Bytes?
    ensures DecBlob(f, prev, b) == Got(v, rest) <==> Frame(b) == Got(v, rest) && |v| + 4 <= f.dataSize
  {
    hide Varint32;
  }

  /** A string leaves room for its NUL, which is written behind it; the buffer keeps what is behind that. */
  lemma StringExact(f: Field, prev: bytes, b: bytes, v: bytes, rest: bytes)
    requires f.ltype.String? && |prev| == f.dataSize
    ensures DecBlob(f, prev, b) == Got(v, rest) <==>
            Frame(b).Got? && Frame(b).rest == rest &&
            var c := Frame(b).v;
            |c| < f.dataSize && |c| < 0xFFFF_FFFF && v == c + [0] + prev[|c| + 1..]
  {
    hide Varint32;
    if Varint32(b).Got? {
      RoomForNul(Varint32(b).v, f.dataSize);
    }
  }

  lemma RoomForNul(n: nat, size: nat)
    requires n < TWO_32
    ensures Low32(n + 1) >= n && Low32(n + 1) <= size <==> n < size && n < 0xFFFF_FFFF
  {
  }

  /** Fixed-length bytes come in full or with length zero, which stands for zeros. */
  lemma FixedLengthExact(f: Field, prev: bytes, b: bytes, v: bytes, rest: bytes)
    requires f.ltype.FixedLengthBytes? && |prev| == f.dataSize
    ensures DecBlob(f, prev, b) == Got(v, rest) <==>
            Frame(b).Got? && Frame(b).rest == rest && |v| == f.dataSize &&
            (Frame(b).v == v || (Frame(b).v == [] && forall j | 0 <= j < |v| :: v[j] == 0))
  {
    hide Varint32, Zeros;
    if |v| == f.dataSize && forall j | 0 <= j < |v| :: v[j] == 0 {
      assert v == Zeros(f.dataSize);
    }
  }

  // ---------- Keys without a tag ----------

  /**
    Tag 0 with a wire type other than 0: to be skipped like any unknown tag, but with an empty table it is
    taken for a bool.
   */
  lemma TagZero(d: Desc, wt: nat, y: bytes, st: Loop)
    requires WF(d) && LoopShape(d, st) && 1 <= wt <= 7
    ensures d.fields != [] ==>
              DecLoop(d, [wt] + y, st) == if Skip(wt, y).Bad? then Bad else DecLoop(d, Skip(wt, y).rest, st)
    ensures d.fields == [] ==>
              DecLoop(d, [wt] + y, st) == if Varint32(y).Bad? then Bad else DecLoop(d, Varint32(y).rest, st)
  {
    hide Skip, Varint32From, FindTag, Shape;
    assert ([wt] + y)[1..] == y && ([wt] + y)[0] == wt;
    assert DecTag([wt] + y) == TagOk(0, wt, y);
    NoTagZero(d);
  }

  lemma NoTagZero(d: Desc)
    requires WF(d)
    ensures FindTag(d.fields, 0) < 0
  {
  }

  // ---------- Messages that end early ----------

  /** What follows a zero byte inside a delimited message is passed over. */
  lemma DelimitedEndsEarly(d: Desc, m: seq<Slot>, junk: seq<Slot>, passed: bytes, x: bytes)
    requires WF(d) && Shape(d, m) && Shape(d, junk) && EncMessage(d, m).Some?
    requires |EncMessage(d, m).value + [0] + passed| < TWO_32
    ensures var r := DecodeDelimited(d, Delimited(EncMessage(d, m).value + [0] + passed) + x, junk);
            (r.Got? <==> Term(d, m)) && (r.Got? ==> r.rest == x && Same(d, r.v, m))
  {
    hide Decode, Term, Same, Frame, Delimited, EncMessage;
    NullTerminatedRoundTrip(d, m, junk, passed);
    FrameRoundTrip(EncMessage(d, m).value + [0] + passed, x);
  }

  // ---------- Full arrays ----------

  /** A further item for an array that is full is refused, whatever it is. */
  lemma FullArrayRefuses(d: Desc, k: nat, wt: nat, y: bytes, st: Loop)
    requires WF(d) && LoopShape(d, st) && k < |d.fields| && WFField(d.fields[k]) && wt < 8
    requires d.fields[k].htype.Repeated? && (FixedCount(d.fields[k]) ==> st.fixed == k)
    requires SizeAt(d, st, k) >= d.fields[k].arraySize
    requires wt == 2 && Packable(d.fields[k].ltype) ==> Frame(y).Got? && Frame(y).v != []
    ensures DecLoop(d, Tag(wt, d.fields[k].tag) + y, st) == Bad
  {
    hide DecLoop, DecStep, DecValue, WF, Shape, ShapeValue, Tag, Frame;
    LoopStep(d, k, wt, y, st);
    StepArray(d, k, wt, y, st);
  }

  /** A packed record without items changes nothing, even for an array that is full or worse. */
  lemma EmptyRecordIgnored(d: Desc, k: nat, y: bytes, st: Loop)
    requires WF(d) && LoopShape(d, st) && k < |d.fields| && WFField(d.fields[k])
    requires d.fields[k].htype.Repeated? && Packable(d.fields[k].ltype) && !FixedCount(d.fields[k])
    requires Frame(y).Got? && Frame(y).v == []
    ensures DecLoop(d, Tag(2, d.fields[k].tag) + y, st) == DecLoop(d, Frame(y).rest, st)
  {
    hide DecLoop, DecStep, WF, Shape, ShapeValue, Tag, Frame;
    LoopStep(d, k, 2, y, st);
    StepArray(d, k, 2, y, st);
    if SlotAt(d, st.m, k).count <= d.fields[k].arraySize {
      SameSlotPut(d, k, st);
    }
  }

  lemma SameSlotPut(d: Desc, k: nat, st: Loop)
    requires WF(d) && LoopShape(d, st) && k < |d.fields| && WFField(d.fields[k])
    requires d.fields[k].htype.Repeated? && !FixedCount(d.fields[k])
    requires SlotAt(d, st.m, k).count <= d.fields[k].arraySize
    ensures PutItems(d, k, SlotAt(d, st.m, k).items, SlotAt(d, st.m, k).count, st) == st
  {
    hide WF, ShapeValue;
    var s := SlotAt(d, st.m, k);
    assert st.m[SlotOf(d.fields, k) := s] == st.m;
  }

  /**
    The current member of a union, when it is received once more, is decoded over its own old value: a string
    keeps what was behind its NUL.
   */
  lemma SameMemberKept(d: Desc, k: nat, wt: nat, y: bytes, st: Loop, s: Slot)
    requires WF(d) && LoopShape(d, st) && k < |d.fields| && WFField(d.fields[k]) && wt < 8
    requires d.fields[k].htype.OneOf? && !d.fields[k].ltype.SubMessage?
    requires s == SlotAt(d, st.m, k) && s.Union? && s.which == d.fields[k].tag
    ensures var r := DecValue(d.fields[k], s.v, y);
            DecLoop(d, Tag(wt, d.fields[k].tag) + y, st) ==
            if r.Bad? then Bad else DecLoop(d, r.rest, Fill(d, k, r.v, st))
  {
    hide DecLoop, DecValue, WF, Shape, ShapeValue, Tag, Fill;
    SingleRecord(d, k, wt, y, st);
  }
}
