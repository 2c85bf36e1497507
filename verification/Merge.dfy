/**
  How decoding behaves on byte strings put together: concatenation merges messages, unknown
  fields are invisible, and packed and unpacked arrays are interchangeable.
 */
module Merge {
  import opened Basics
  import opened Varint
  import opened Message
  import opened EncodeSpec
  import opened DecodeSpec
  import opened Independence
  import opened RoundTripItems
  import opened RoundTrip

  // ---------- What is read does not depend on what follows ----------

  lemma TakeExtends(n: nat, b: bytes, x: bytes)
    requires Take(n, b).Got?
    ensures Take(n, b + x) == Got(Take(n, b).v, Take(n, b).rest + x)
  {
    assert (b + x)[..n] == b[..n] && (b + x)[n..] == b[n..] + x;
  }

  lemma FrameExtends(b: bytes, x: bytes)
    requires Frame(b).Got?
    ensures Frame(b + x) == Got(Frame(b).v, Frame(b).rest + x)
  {
    hide Varint32;
    Varint32Extends(b, x);
    TakeExtends(Varint32(b).v, Varint32(b).rest, x);
  }

  lemma TagExtends(b: bytes, x: bytes)
    ensures DecTag(b).NoTag? ==> DecTag(b + x) == NoTag(DecTag(b).rest + x)
    ensures DecTag(b).TagOk? ==> DecTag(b + x) == TagOk(DecTag(b).tag, DecTag(b).wt, DecTag(b).rest + x)
  {
    hide Varint32;
    if Varint32(b).Got? {
      Varint32Extends(b, x);
    }
  }

  lemma {:induction false} SkipVarintExtends(b: bytes, x: bytes)
    requires SkipVarint(b).Got?
    ensures SkipVarint(b + x) == Got((), SkipVarint(b).rest + x)
  {
    assert (b + x)[1..] == b[1..] + x && (b + x)[0] == b[0];
    if b[0] >= 128 {
      SkipVarintExtends(b[1..], x);
    }
  }

  lemma SkipExtends(wt: nat, b: bytes, x: bytes)
    requires Skip(wt, b).Got?
    ensures Skip(wt, b + x) == Got((), Skip(wt, b).rest + x)
  {
    hide SkipVarint, Frame, Take;
    if wt == WT_VARINT {
      SkipVarintExtends(b, x);
    } else if wt == WT_64BIT {
      TakeExtends(8, b, x);
    } else if wt == WT_STRING {
      FrameExtends(b, x);
    } else {
      TakeExtends(4, b, x);
    }
  }

  lemma ScalarExtends(f: Field, b: bytes, x: bytes)
    requires Packable(f.ltype) && WFType(f) && DecScalar(f, b).Got?
    ensures DecScalar(f, b + x) == Got(DecScalar(f, b).v, DecScalar(f, b).rest + x)
  {
    hide Varint32, Varint64From, Take;
    match f.ltype
    case Bool => Varint32Extends(b, x);
    case VarInt | UVarInt | SVarInt => Varint64Frame(b, x, 0, 0);
    case Fixed32 => TakeExtends(4, b, x);
    case Fixed64 => TakeExtends(8, b, x);
  }

  lemma BlobExtends(f: Field, prev: bytes, b: bytes, x: bytes)
    requires f.ltype.Bytes? || f.ltype.String? || f.ltype.FixedLengthBytes?
    requires !f.ltype.Bytes? ==> |prev| == f.dataSize
    requires DecBlob(f, prev, b).Got?
    ensures DecBlob(f, prev, b + x) == Got(DecBlob(f, prev, b).v, DecBlob(f, prev, b).rest + x)
  {
    hide Varint32, Take, Zeros;
    Varint32Extends(b, x);
    var n, rest := Varint32(b).v, Varint32(b).rest;
    if Take(n, rest).Got? {
      TakeExtends(n, rest, x);
    }
  }

  lemma ValueExtends(f: Field, prev: Value, b: bytes, x: bytes)
    requires WFField(f) && ShapeValue(f, prev) && DecValue(f, prev, b).Got?
    ensures DecValue(f, prev, b + x) == Got(DecValue(f, prev, b).v, DecValue(f, prev, b).rest + x)
  {
    hide DecScalar, DecBlob, Frame, DecNoInit;
    if Packable(f.ltype) {
      ScalarExtends(f, b, x);
    } else if f.ltype.SubMessage? {
      FrameExtends(b, x);
    } else {
      BlobExtends(f, prev.b, b, x);
    }
  }

  lemma FieldExtends(d: Desc, i: nat, wt: nat, b: bytes, st: Loop, x: bytes)
    requires WF(d) && LoopShape(d, st) && i < |d.fields|
    requires FixedCount(d.fields[i]) ==> st.fixed == i
    requires DecField(d, i, wt, b, st).Got?
    ensures DecField(d, i, wt, b + x, st) == Got(DecField(d, i, wt, b, st).v, DecField(d, i, wt, b, st).rest + x)
  {
    hide DecValue, Frame, DecPacked, PutItems, PutSlot, UnionStart, WF, Shape, WFField, ShapeValue;
    var f, s := d.fields[i], SlotAt(d, st.m, i);
    match f.htype
    case Required | Optional => ValueExtends(f, s.v, b, x);
    case OneOf => ValueExtends(f, UnionStart(f, s), b, x);
    case Repeated =>
      if wt == WT_STRING && Packable(f.ltype) {
        FrameExtends(b, x);
      } else {
        ValueExtends(f, s.items[SizeAt(d, st, i)], b, x);
      }
  }

  lemma StepExtends(d: Desc, tag: nat, wt: nat, b: bytes, st: Loop, x: bytes)
    requires WF(d) && LoopShape(d, st) && DecStep(d, tag, wt, b, st).Got?
    ensures DecStep(d, tag, wt, b + x, st) == Got(DecStep(d, tag, wt, b, st).v, DecStep(d, tag, wt, b, st).rest + x)
  {
    hide DecField, Skip, Varint32, FindTag, Enter, WF, LoopShape;
    var i := FindTag(d.fields, tag);
    if i >= 0 {
      FieldExtends(d, i, wt, b, Enter(d, i, st).value, x);
    } else if tag == 0 && d.fields == [] {
      Varint32Extends(b, x);
    } else {
      SkipExtends(wt, b, x);
    }
  }

  /**
    A byte string the loop reads successfully, put in front of another one: the loop ends at
    its zero tag, or goes on with the other one from the state it reached.
   */
  lemma {:induction false} LoopExtends(d: Desc, b: bytes, st: Loop, x: bytes)
    requires WF(d) && LoopShape(d, st) && !st.ended && DecLoop(d, b, st).Got?
    ensures var r := DecLoop(d, b, st);
            DecLoop(d, b + x, st) == if r.v.ended then Got(r.v, r.rest + x) else DecLoop(d, x, r.v)
    ensures !DecLoop(d, b, st).v.ended ==> DecLoop(d, b, st).rest == []
    decreases |b|
  {
    hide DecTag, DecStep, WF, LoopShape;
    if b == [] {
      assert b + x == x;
    } else {
      TagExtends(b, x);
      if DecTag(b).TagOk? {
        var t := DecTag(b);
        StepExtends(d, t.tag, t.wt, t.rest, st, x);
        var s := DecStep(d, t.tag, t.wt, t.rest, st);
        LoopExtends(d, s.rest, s.v, x);
      }
    }
  }

  // ---------- Unknown fields ----------

  /** u is one field with a non-zero tag that d does not have. */
  predicate UnknownField(d: Desc, u: bytes) {
    match DecTag(u)
    case TagOk(tag, wt, b) => tag != 0 && FindTag(d.fields, tag) < 0 && Skip(wt, b) == Got((), [])
    case _ => false
  }

  lemma UnknownSkipped(d: Desc, u: bytes, x: bytes, st: Loop)
    requires WF(d) && LoopShape(d, st) && UnknownField(d, u)
    ensures DecLoop(d, u + x, st) == DecLoop(d, x, st)
  {
    hide DecTag, Skip, FindTag, WF, LoopShape;
    TagExtends(u, x);
    var t := DecTag(u);
    SkipExtends(t.wt, t.rest, x);
    assert [] + x == x;
    assert u != [] by { assert DecTag(u).TagOk?; }
  }

  /**
    An unknown field at any field boundary of a message changes neither whether pb_decode
    succeeds nor what it leaves in the struct.
   */
  lemma UnknownFieldTransparent(d: Desc, s1: bytes, u: bytes, s2: bytes, m: seq<Slot>)
    requires WF(d) && Shape(d, m) && UnknownField(d, u)
    requires var r := DecLoop(d, s1, Start(DefaultMessage(d, m))); r.Got? && !r.v.ended
    ensures Decode(d, s1 + u + s2, m) == Decode(d, s1 + s2, m)
  {
    hide DecLoop, UnknownField, WF, Shape;
    var st := Start(DefaultMessage(d, m));
    LoopExtends(d, s1, st, u + s2);
    LoopExtends(d, s1, st, s2);
    UnknownSkipped(d, u, s2, DecLoop(d, s1, st).v);
    assert s1 + u + s2 == s1 + (u + s2);
  }

  // ---------- Concatenation is merging ----------

  predicate NoFixedCount(d: Desc) {
    forall i | 0 <= i < |d.fields| :: !FixedCount(d.fields[i])
  }

  /** A loop result with more fields recorded as seen. */
  function AlsoSeen(r: Parsed<Loop>, seen: set<nat>): Parsed<Loop> {
    match r
    case Bad => Bad
    case Got(st, rest) => Got(st.(seen := seen + st.seen), rest)
  }

  lemma FieldIgnoresSeen(d: Desc, i: nat, wt: nat, b: bytes, st: Loop, seen: set<nat>)
    requires WF(d) && LoopShape(d, st) && i < |d.fields| && (FixedCount(d.fields[i]) ==> st.fixed == i)
    ensures DecField(d, i, wt, b, st.(seen := seen + st.seen)) == AlsoSeen(DecField(d, i, wt, b, st), seen)
    ensures !FixedCount(d.fields[i]) && DecField(d, i, wt, b, st).Got? ==>
              DecField(d, i, wt, b, st).v.fixedSize == st.fixedSize
  {
    hide DecValue, Frame, DecPacked, UnionStart, WF, Shape, WFField, ShapeValue, ShapeSlot, SlotOf;
  }

  lemma StepIgnoresSeen(d: Desc, tag: nat, wt: nat, b: bytes, st: Loop, seen: set<nat>)
    requires WF(d) && LoopShape(d, st) && NoFixedCount(d)
    ensures DecStep(d, tag, wt, b, st.(seen := seen + st.seen)) == AlsoSeen(DecStep(d, tag, wt, b, st), seen)
    ensures var r := DecStep(d, tag, wt, b, st); r.Got? ==> r.v.fixed == st.fixed && r.v.fixedSize == st.fixedSize
  {
    hide DecField, Skip, Varint32, FindTag, WF, Shape;
    var i := FindTag(d.fields, tag);
    if i >= 0 {
      assert !FixedCount(d.fields[i]);
      var st1 := Enter(d, i, st).value;
      FieldIgnoresSeen(d, i, wt, b, st1, seen);
      var r := RequiredBefore(d.fields, i);
      assert seen + (st.seen + {r}) == (seen + st.seen) + {r};
    }
  }

  /** Without fixed-count arrays, the loop does the same whatever fields were seen before. */
  lemma {:induction false} LoopIgnoresSeen(d: Desc, b: bytes, st: Loop, seen: set<nat>)
    requires WF(d) && LoopShape(d, st) && NoFixedCount(d)
    ensures DecLoop(d, b, st.(seen := seen + st.seen)) == AlsoSeen(DecLoop(d, b, st), seen)
    ensures var r := DecLoop(d, b, st); r.Got? ==> r.v.fixed == st.fixed && r.v.fixedSize == st.fixedSize
    decreases |b|
  {
    hide DecStep, DecTag, NoFixedCount, WF, Shape;
    if b != [] && DecTag(b).TagOk? {
      var t := DecTag(b);
      StepIgnoresSeen(d, t.tag, t.wt, t.rest, st, seen);
      var s := DecStep(d, t.tag, t.wt, t.rest, st);
      if s.Got? {
        LoopIgnoresSeen(d, s.rest, s.v, seen);
      }
    }
  }

  /**
    Decoding s1 and then s2 into the same struct is decoding s1 + s2, unless s1 ends the
    message with a zero tag: then s2 is not looked at.
   */
  lemma ConcatenationMerges(d: Desc, s1: bytes, s2: bytes, m: seq<Slot>)
    requires WF(d) && Shape(d, m) && NoFixedCount(d)
    requires DecNoInit(d, s1, m).Got?
    requires DecNoInit(d, s2, DecNoInit(d, s1, m).v).Got?
    ensures DecNoInit(d, s1 + s2, m) ==
            if DecLoop(d, s1, Start(m)).v.ended then Got(DecNoInit(d, s1, m).v, DecNoInit(d, s1, m).rest + s2)
            else DecNoInit(d, s2, DecNoInit(d, s1, m).v)
  {
    hide DecLoop, WF, Shape, NoFixedCount;
    LoopExtends(d, s1, Start(m), s2);
    LoopIgnoresSeen(d, s1, Start(m), {});
    var st := DecLoop(d, s1, Start(m)).v;
    if !st.ended {
      LoopIgnoresSeen(d, s2, Start(st.m), st.seen);
      assert Start(st.m).(seen := st.seen + {}) == st;
    }
  }

  // ---------- Submessages that come in pieces ----------

  /** A length-delimited record of entry k. */
  function Record(d: Desc, k: nat, body: bytes): bytes
    requires k < |d.fields|
  {
    Tag(WT_STRING, d.fields[k].tag) + Delimited(body)
  }

  lemma FillTwice(d: Desc, k: nat, v1: Value, v2: Value, st: Loop)
    requires WF(d) && LoopShape(d, st) && k < |d.fields| && !d.fields[k].htype.Repeated?
    requires ShapeValue(d.fields[k], v1) && ShapeValue(d.fields[k], v2)
    ensures Fill(d, k, v2, Fill(d, k, v1, st)) == Fill(d, k, v2, st)
  {
  }

  /** One record of a submessage that is not repeated, decoded and stored. */
  lemma SubmessageRecord(d: Desc, k: nat, body: bytes, x: bytes, st: Loop)
    requires WF(d) && LoopShape(d, st) && k < |d.fields| && |body| < TWO_32
    requires d.fields[k].ltype.SubMessage? && !d.fields[k].htype.Repeated?
    requires WFField(d.fields[k])
    ensures var f := d.fields[k];
            var r := DecNoInit(f.ptr.desc, body, Before(f, SlotAt(d, st.m, k)).slots);
            DecLoop(d, Record(d, k, body) + x, st) == if r.Bad? then Bad else DecLoop(d, x, Fill(d, k, Sub(r.v), st))
  {
    hide DecLoop, DecStep, DecNoInit, Frame, WF, Shape, Tag, Delimited, Before;
    var y := Delimited(body) + x;
    assert Record(d, k, body) + x == Tag(WT_STRING, d.fields[k].tag) + y;
    LoopStep(d, k, WT_STRING, y, st);
    StepSingle(d, k, WT_STRING, y, st);
    FrameRoundTrip(body, x);
  }

  /**
    Two records of a required or optional submessage are one record with both bodies: the
    second piece is merged into the first at any depth.
   */
  lemma SubmessagesMerge(d: Desc, k: nat, b1: bytes, b2: bytes, x: bytes, st: Loop)
    requires WF(d) && LoopShape(d, st) && k < |d.fields| && |b1 + b2| < TWO_32
    requires WFField(d.fields[k]) && d.fields[k].ltype.SubMessage?
    requires d.fields[k].htype.Required? || d.fields[k].htype.Optional?
    requires NoFixedCount(d.fields[k].ptr.desc)
    requires var sub, start := d.fields[k].ptr.desc, Before(d.fields[k], SlotAt(d, st.m, k)).slots;
             DecNoInit(sub, b1, start).Got? && !DecLoop(sub, b1, Start(start)).v.ended &&
             DecNoInit(sub, b2, DecNoInit(sub, b1, start).v).Got?
    ensures DecLoop(d, Record(d, k, b1) + Record(d, k, b2) + x, st) == DecLoop(d, Record(d, k, b1 + b2) + x, st)
  {
    hide DecLoop, DecNoInit, WF, Record, NoFixedCount;
    var f := d.fields[k];
    var start := Before(f, SlotAt(d, st.m, k)).slots;
    ConcatenationMerges(f.ptr.desc, b1, b2, start);
    var m1 := DecNoInit(f.ptr.desc, b1, start).v;
    var st1 := Fill(d, k, Sub(m1), st);
    assert Record(d, k, b1) + Record(d, k, b2) + x == Record(d, k, b1) + (Record(d, k, b2) + x);
    SubmessageRecord(d, k, b1, Record(d, k, b2) + x, st);
    SubmessageRecord(d, k, b1 + b2, x, st);
    SubmessageRecord(d, k, b2, x, st1);
    var m2 := DecNoInit(f.ptr.desc, b2, m1);
    if m2.Got? {
      FillTwice(d, k, Sub(m1), Sub(m2.v), st);
    }
  }

  /** A submessage in a union starts afresh with every record: only the last one counts. */
  lemma OneOfSubmessageResets(d: Desc, k: nat, b1: bytes, b2: bytes, x: bytes, st: Loop)
    requires WF(d) && LoopShape(d, st) && k < |d.fields| && |b1| < TWO_32 && |b2| < TWO_32
    requires WFField(d.fields[k]) && d.fields[k].ltype.SubMessage? && d.fields[k].htype.OneOf?
    requires DecNoInit(d.fields[k].ptr.desc, b1, Before(d.fields[k], SlotAt(d, st.m, k)).slots).Got?
    ensures DecLoop(d, Record(d, k, b1) + Record(d, k, b2) + x, st) == DecLoop(d, Record(d, k, b2) + x, st)
  {
    hide DecLoop, DecNoInit, WF, Shape, Record, DefaultValue, ZeroValue;
    var f := d.fields[k];
    var m1 := DecNoInit(f.ptr.desc, b1, Before(f, SlotAt(d, st.m, k)).slots).v;
    var st1 := Fill(d, k, Sub(m1), st);
    assert Record(d, k, b1) + Record(d, k, b2) + x == Record(d, k, b1) + (Record(d, k, b2) + x);
    SubmessageRecord(d, k, b1, Record(d, k, b2) + x, st);
    SubmessageRecord(d, k, b2, x, st);
    SubmessageRecord(d, k, b2, x, st1);
    var m2 := DecNoInit(f.ptr.desc, b2, Before(f, SlotAt(d, st.m, k)).slots);
    if m2.Got? {
      FillTwice(d, k, Sub(m1), Sub(m2.v), st);
    }
  }

  // ---------- The last one wins ----------

  lemma FillOver(d: Desc, j: nat, k: nat, v1: Value, v2: Value, st: Loop)
    requires WF(d) && LoopShape(d, st) && j < |d.fields| && k < |d.fields|
    requires SlotOf(d.fields, j) == SlotOf(d.fields, k)
    requires !d.fields[j].htype.Repeated? && !d.fields[k].htype.Repeated?
    requires ShapeValue(d.fields[j], v1) && ShapeValue(d.fields[k], v2)
    ensures Fill(d, k, v2, Fill(d, j, v1, st)) == Fill(d, k, v2, st)
  {
  }

  /** One record of entry k, which is not repeated, at the front of y. */
  lemma SingleRecord(d: Desc, k: nat, wt: nat, y: bytes, st: Loop)
    requires WF(d) && LoopShape(d, st) && k < |d.fields| && WFField(d.fields[k])
    requires !d.fields[k].htype.Repeated? && wt < 8
    ensures var r := DecValue(d.fields[k], Before(d.fields[k], SlotAt(d, st.m, k)), y);
            DecLoop(d, Tag(wt, d.fields[k].tag) + y, st) ==
            if r.Bad? then Bad else DecLoop(d, r.rest, Fill(d, k, r.v, st))
  {
    hide DecLoop, DecStep, DecValue, WF, Shape, Tag, Before;
    LoopStep(d, k, wt, y, st);
    StepSingle(d, k, wt, y, st);
  }

  lemma FillAlike(d: Desc, k: nat, v: Value, w: Value, st: Loop)
    requires WF(d) && LoopShape(d, st) && k < |d.fields| && WFField(d.fields[k]) && !d.fields[k].htype.Repeated?
    requires ShapeValue(d.fields[k], v) && ShapeValue(d.fields[k], w) && AlikeValue(d.fields[k], v, w)
    ensures AlikeLoop(d, Fill(d, k, v, st), Fill(d, k, w, st))
  {
    hide WF, Shape, Alike, AlikeValue, ShapeValue;
    AlikeItself(d, st.m);
    UpdateAlike(d, st.m, st.m, k, Filled(d.fields[k], v), Filled(d.fields[k], w));
  }

  /**
    The last one wins: a first record of any field, or of any other member of its union, makes no
    difference to a second one, whether that can be decoded or not. Only a string may keep
    bytes of the first behind its NUL, and only a submessage outside a union is merged instead.
   */
  lemma LastOneWins(d: Desc, j: nat, k: nat, wt1: nat, e1: bytes, wt2: nat, y: bytes, st: Loop)
    requires WF(d) && LoopShape(d, st) && j < |d.fields| && k < |d.fields|
    requires WFField(d.fields[j]) && WFField(d.fields[k]) && wt1 < 8 && wt2 < 8
    requires SlotOf(d.fields, j) == SlotOf(d.fields, k)
    requires !d.fields[j].htype.Repeated? && !d.fields[k].htype.Repeated?
    requires d.fields[k].ltype.SubMessage? ==> d.fields[k].htype.OneOf?
    requires var r := DecValue(d.fields[j], Before(d.fields[j], SlotAt(d, st.m, j)), e1); r.Got? && r.rest == []
    ensures var p := DecLoop(d, Tag(wt1, d.fields[j].tag) + e1 + Tag(wt2, d.fields[k].tag) + y, st);
            var q := DecLoop(d, Tag(wt2, d.fields[k].tag) + y, st);
            AlikeRuns(d, p, q) && (!d.fields[k].ltype.String? ==> p == q)
  {
    hide DecLoop, DecValue, WF, Shape, ShapeValue, Tag, Fill, SlotOf, AlikeRuns, Startable, Before;
    var f, g := d.fields[j], d.fields[k];
    var t1, t2 := Tag(wt1, f.tag), Tag(wt2, g.tag);
    var z := t2 + y;
    var v1 := DecValue(f, Before(f, SlotAt(d, st.m, j)), e1).v;
    assert t1 + e1 + t2 + y == t1 + (e1 + z);
    ValueExtends(f, Before(f, SlotAt(d, st.m, j)), e1, z);
    assert [] + z == z;
    var st1 := Fill(d, j, v1, st);
    SingleRecord(d, j, wt1, e1 + z, st);
    SingleRecord(d, k, wt2, y, st);
    SingleRecord(d, k, wt2, y, st1);
    SecondRecord(d, j, k, v1, y, st);
  }

  /** What the second record does after the first and without it. */
  lemma SecondRecord(d: Desc, j: nat, k: nat, v1: Value, y: bytes, st: Loop)
    requires WF(d) && LoopShape(d, st) && j < |d.fields| && k < |d.fields|
    requires WFField(d.fields[j]) && WFField(d.fields[k])
    requires SlotOf(d.fields, j) == SlotOf(d.fields, k) && ShapeValue(d.fields[j], v1)
    requires !d.fields[j].htype.Repeated? && !d.fields[k].htype.Repeated?
    requires d.fields[k].ltype.SubMessage? ==> d.fields[k].htype.OneOf?
    ensures var st1 := Fill(d, j, v1, st);
            var r := DecValue(d.fields[k], Before(d.fields[k], SlotAt(d, st1.m, k)), y);
            var s := DecValue(d.fields[k], Before(d.fields[k], SlotAt(d, st.m, k)), y);
            var p := if r.Bad? then Bad else DecLoop(d, r.rest, Fill(d, k, r.v, st1));
            var q := if s.Bad? then Bad else DecLoop(d, s.rest, Fill(d, k, s.v, st));
            AlikeRuns(d, p, q) && (!d.fields[k].ltype.String? ==> p == q)
  {
    hide DecLoop, DecValue, WF, Shape, ShapeValue, Fill, SlotOf, Startable, Alike;
    var g, st1 := d.fields[k], Fill(d, j, v1, st);
    var u, w := Before(g, SlotAt(d, st1.m, k)), Before(g, SlotAt(d, st.m, k));
    BeforeStartable(g, SlotAt(d, st1.m, k), SlotAt(d, st.m, k));
    ValuesAlike(g, u, w, y);
    var r, s := DecValue(g, u, y), DecValue(g, w, y);
    if r.Got? {
      FillOver(d, j, k, v1, r.v, st);
      FillAlike(d, k, r.v, s.v, st);
      LoopAlike(d, r.rest, Fill(d, k, r.v, st), Fill(d, k, s.v, st));
    }
  }

  lemma BeforeStartable(f: Field, s: Slot, t: Slot)
    requires WFField(f) && ShapeSlot(f, s) && ShapeSlot(f, t) && !f.htype.Repeated?
    requires f.ltype.SubMessage? ==> f.htype.OneOf?
    ensures Startable(f, Before(f, s), Before(f, t))
    ensures f.ltype.SubMessage? ==> Before(f, s) == Before(f, t)
  {
    hide Alike, DefaultValue, ZeroValue;
    if f.ltype.SubMessage? {
      AlikeItself(f.ptr.desc, Before(f, s).slots);
    }
  }

  // ---------- Packed and unpacked arrays ----------

  function Concat(es: seq<bytes>): bytes {
    if es == [] then [] else es[0] + Concat(es[1..])
  }

  /** Every element of the list is the encoding of one integer, and no more. */
  predicate Elements(f: Field, es: seq<bytes>)
    requires Packable(f.ltype) && WFType(f)
  {
    forall j | 0 <= j < |es| :: DecScalar(f, es[j]).Got? && DecScalar(f, es[j]).rest == []
  }

  /** Each element in a record of its own. */
  function Unpacked(f: Field, wt: nat, es: seq<bytes>): bytes {
    if es == [] then [] else Tag(wt, f.tag) + es[0] + Unpacked(f, wt, es[1..])
  }

  lemma EnteredKeeps(d: Desc, k: nat, st: Loop)
    requires LoopShape(d, st) && k < |d.fields|
    ensures Entered(d, k, st).m == st.m
  {
  }

  lemma ElementItem(d: Desc, k: nat, e: bytes, x: bytes, st: Loop)
    requires WF(d) && LoopShape(d, st) && k < |d.fields| && WFField(d.fields[k])
    requires d.fields[k].htype.Repeated? && Packable(d.fields[k].ltype) && (FixedCount(d.fields[k]) ==> st.fixed == k)
    requires DecScalar(d.fields[k], e).Got? && DecScalar(d.fields[k], e).rest == []
    ensures var f, s, size := d.fields[k], SlotAt(d, st.m, k), SizeAt(d, st, k);
            DecItem(d, k, e + x, st) ==
            if size >= f.arraySize then Bad
            else Got(PutItems(d, k, s.items[size := Int(DecScalar(f, e).v)], size + 1, st), x)
  {
    hide DecScalar, WF, Shape, PutItems, SizeAt;
    ScalarExtends(d.fields[k], e, x);
    assert [] + x == x;
  }

  /** One unpacked element: stored if there is room. */
  lemma ElementStep(d: Desc, k: nat, wt: nat, e: bytes, x: bytes, st: Loop)
    requires WF(d) && LoopShape(d, st) && k < |d.fields| && WFField(d.fields[k])
    requires d.fields[k].htype.Repeated? && Packable(d.fields[k].ltype) && wt < 8 && wt != WT_STRING
    requires FixedCount(d.fields[k]) ==> st.fixed == k || FixedDone(d, st)
    requires DecScalar(d.fields[k], e).Got? && DecScalar(d.fields[k], e).rest == []
    ensures var f, s, st1 := d.fields[k], SlotAt(d, st.m, k), Entered(d, k, st);
            var size := SizeAt(d, st1, k);
            DecLoop(d, Tag(wt, f.tag) + e + x, st) ==
            if size >= f.arraySize then Bad
            else DecLoop(d, x, PutItems(d, k, s.items[size := Int(DecScalar(f, e).v)], size + 1, st1))
  {
    hide DecLoop, DecStep, DecItem, DecScalar, WF, Shape, ShapeValue, Tag, PutItems, SizeAt, Entered;
    var f := d.fields[k];
    assert Tag(wt, f.tag) + e + x == Tag(wt, f.tag) + (e + x);
    LoopStep(d, k, wt, e + x, st);
    StepArray(d, k, wt, e + x, st);
    EnteredKeeps(d, k, st);
    ElementItem(d, k, e, x, Entered(d, k, st));
  }

  /** Storing twice is storing the last time. */
  lemma PutTwice(d: Desc, k: nat, i1: seq<Value>, n1: nat, i2: seq<Value>, n2: nat, st: Loop)
    requires WF(d) && LoopShape(d, st) && k < |d.fields| && d.fields[k].htype.Repeated?
    requires FixedCount(d.fields[k]) ==> st.fixed == k
    requires |i1| == |i2| == d.fields[k].arraySize && n1 <= |i1| && n2 <= |i2|
    requires forall j | 0 <= j < |i1| :: ShapeValue(d.fields[k], i1[j]) && ShapeValue(d.fields[k], i2[j])
    ensures var st1 := PutItems(d, k, i1, n1, st);
            PutItems(d, k, i2, n2, st1) == PutItems(d, k, i2, n2, st) && Entered(d, k, st1) == st1 &&
            SizeAt(d, st1, k) == n1 && SlotAt(d, st1.m, k).items == i1 && st1.fixed == st.fixed
  {
  }

  lemma {:induction false} UnpackedRun(d: Desc, k: nat, wt: nat, es: seq<bytes>, x: bytes, st: Loop)
    requires WF(d) && LoopShape(d, st) && k < |d.fields| && WFField(d.fields[k])
    requires d.fields[k].htype.Repeated? && Packable(d.fields[k].ltype) && wt < 8 && wt != WT_STRING
    requires FixedCount(d.fields[k]) ==> st.fixed == k || FixedDone(d, st)
    requires es != [] && Elements(d.fields[k], es)
    requires SizeAt(d, Entered(d, k, st), k) <= d.fields[k].arraySize
    ensures var f, s, st1 := d.fields[k], SlotAt(d, st.m, k), Entered(d, k, st);
            DecLoop(d, Unpacked(f, wt, es) + x, st) ==
            match DecPacked(f, Concat(es), s.items, SizeAt(d, st1, k))
            case None => Bad
            case Some((items, size)) => DecLoop(d, x, PutItems(d, k, items, size, st1))
    decreases |es|
  {
    hide DecLoop, DecScalar, WF, Shape, Tag, PutItems, SizeAt, Entered;
    var f, s, st1 := d.fields[k], SlotAt(d, st.m, k), Entered(d, k, st);
    var size := SizeAt(d, st1, k);
    var later := es[1..];
    assert Elements(f, later);
    assert Unpacked(f, wt, es) + x == Tag(wt, f.tag) + es[0] + (Unpacked(f, wt, later) + x);
    ElementStep(d, k, wt, es[0], Unpacked(f, wt, later) + x, st);
    ScalarExtends(f, es[0], Concat(later));
    assert [] + Concat(later) == Concat(later);
    assert DecScalar(f, es[0]).Got?;
    if size < f.arraySize {
      var items := s.items[size := Int(DecScalar(f, es[0]).v)];
      var st2 := PutItems(d, k, items, size + 1, st1);
      PutTwice(d, k, items, size + 1, items, size + 1, st1);
      if later == [] {
        assert Unpacked(f, wt, later) + x == x;
      } else {
        UnpackedRun(d, k, wt, later, x, st2);
        var r := DecPacked(f, Concat(later), items, size + 1);
        if r.Some? {
          PutTwice(d, k, items, size + 1, r.value.0, r.value.1, st1);
        }
      }
    }
  }

  /**
    Packed and unpacked arrays are interchangeable: one packed record with a list of integers
    and a run of single records with the same integers lead to the same struct, or both to an
    error, whatever comes next.
   */
  lemma PackedIsUnpacked(d: Desc, k: nat, wt: nat, es: seq<bytes>, x: bytes, st: Loop)
    requires WF(d) && LoopShape(d, st) && k < |d.fields| && WFField(d.fields[k])
    requires d.fields[k].htype.Repeated? && Packable(d.fields[k].ltype) && wt < 8 && wt != WT_STRING
    requires FixedCount(d.fields[k]) ==> st.fixed == k || FixedDone(d, st)
    requires es != [] && Elements(d.fields[k], es) && |Concat(es)| < TWO_32
    ensures DecLoop(d, Record(d, k, Concat(es)) + x, st) == DecLoop(d, Unpacked(d.fields[k], wt, es) + x, st)
  {
    hide DecLoop, DecStep, DecPacked, WF, Shape, Tag, PutItems, SizeAt, Frame, Delimited;
    var f, st1 := d.fields[k], Entered(d, k, st);
    var y := Delimited(Concat(es)) + x;
    assert Record(d, k, Concat(es)) + x == Tag(WT_STRING, f.tag) + y;
    LoopStep(d, k, WT_STRING, y, st);
    StepArray(d, k, WT_STRING, y, st);
    FrameRoundTrip(Concat(es), x);
    assert DecScalar(f, es[0]).Got?;
    assert Unpacked(f, wt, es) + x == Tag(wt, f.tag) + es[0] + (Unpacked(f, wt, es[1..]) + x);
    if SizeAt(d, st1, k) <= f.arraySize {
      UnpackedRun(d, k, wt, es, x, st);
    } else {
      ElementStep(d, k, wt, es[0], Unpacked(f, wt, es[1..]) + x, st);
    }
  }
}
