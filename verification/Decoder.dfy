/** The decoder: reads fields from an input stream into a struct, in whatever order they come. */
module Decoder {
  import opened Basics
  import opened Varint
  import opened Scalars
  import opened Message
  import opened EncodeSpec
  import opened DecodeSpec
  import opened Iterator
  import opened InputStream
  import opened RequiredFields
  import opened RoundTrip

  /** A message struct in memory. */
  class Struct {
    var slots: seq<Slot>

    constructor (slots: seq<Slot>)
      ensures this.slots == slots
    {
      this.slots := slots;
    }
  }

  // ---------- Data items ----------

  /** pb_decode_svarint. */
  method DecodeSVarint(s: IStream) returns (ok: bool, v: int)
    requires s.Valid()
    modifies s
    ensures s.Valid() && Read(old(s.State()), s.State(), Varint64(old(s.Left())), ok)
    ensures ok ==> v == UnZigZag(Varint64(old(s.Left())).v)
  {
    hide Varint64;
    var value;
    ok, value := s.DecodeVarint();
    if !ok {
      return ok, 0;
    }
    if value % 2 == 1 {
      v := Signed64(TWO_64 - 1 - value / 2);
    } else {
      v := Signed64(value / 2);
    }
  }

  /** pb_decode_fixed32 and pb_decode_fixed64. */
  method DecodeFixed(s: IStream, n: nat) returns (ok: bool, v: int)
    requires s.Valid() && n in {4, 8}
    modifies s
    ensures s.Valid() && Read(old(s.State()), s.State(), Word(n, old(s.Left())), ok)
    ensures ok ==> v == Word(n, old(s.Left())).v
  {
    hide FromLittle, Take;
    var b;
    ok, b := s.ReadBytes(n);
    if !ok {
      return ok, 0;
    }
    if n == 4 {
      FromFour(b);
      v := FourBytes(b);
    } else {
      FromFour(b);
      FromFour(b[4..]);
      v := FourBytes(b) + 0x1_0000_0000 * FourBytes(b[4..]);
    }
  }

  /** The sum of shifted bytes that pb_decode_fixed32 computes. */
  function FourBytes(b: bytes): nat
    requires |b| >= 4
  {
    (b[0] as int) + 0x100 * (b[1] as int) + 0x1_0000 * (b[2] as int) + 0x100_0000 * (b[3] as int)
  }

  lemma FromFour(b: bytes)
    requires |b| >= 4
    ensures FromLittle(b) == FourBytes(b) + 0x1_0000_0000 * FromLittle(b[4..])
    ensures |b| == 4 ==> FromLittle(b[4..]) == 0
  {
    assert b[1..][1..] == b[2..] && b[2..][1..] == b[3..] && b[3..][1..] == b[4..];
    assert FromLittle(b) == b[0] + 256 * FromLittle(b[1..]);
    assert FromLittle(b[1..]) == b[1] + 256 * FromLittle(b[2..]);
    assert FromLittle(b[2..]) == b[2] + 256 * FromLittle(b[3..]);
    assert FromLittle(b[3..]) == b[3] + 256 * FromLittle(b[4..]);
  }

  /** pb_dec_bool, _varint, _uvarint, _svarint, _fixed32 and _fixed64, with their range checks. */
  method DecodeScalar(s: IStream, f: Field) returns (ok: bool, v: int)
    requires s.Valid() && Packable(f.ltype) && WFType(f)
    modifies s
    ensures s.Valid() && Read(old(s.State()), s.State(), DecScalar(f, old(s.Left())), ok)
    ensures ok ==> v == DecScalar(f, old(s.Left())).v
  {
    hide Varint32, Varint64, Word;
    var value: nat := 0;
    v := 0;
    match f.ltype {
      case Bool =>
        ok, value := s.DecodeVarint32();
        v := if value != 0 then 1 else 0;
      case VarInt =>
        ok, value := s.DecodeVarint();
        if ok {
          var svalue := if f.dataSize == 8 then Signed64(value) else Signed32(Low32(value));
          v := SignedCast(f.dataSize, svalue);
          ok := v == svalue;
        }
      case UVarInt =>
        ok, value := s.DecodeVarint();
        if ok {
          v := UnsignedCast(f.dataSize, value);
          ok := v == value;
        }
      case SVarInt =>
        var svalue;
        ok, svalue := DecodeSVarint(s);
        if ok {
          v := SignedCast(f.dataSize, svalue);
          ok := v == svalue;
        }
      case Fixed32 => ok, v := DecodeFixed(s, 4);
      case Fixed64 => ok, v := DecodeFixed(s, 8);
    }
  }

  /** pb_dec_bytes, pb_dec_string and pb_dec_fixed_length_bytes; prev is the destination's content. */
  method DecodeBlob(s: IStream, f: Field, prev: bytes) returns (ok: bool, v: bytes)
    requires s.Valid() && (f.ltype.Bytes? || f.ltype.String? || f.ltype.FixedLengthBytes?)
    requires !f.ltype.Bytes? ==> |prev| == f.dataSize
    modifies s
    ensures s.Valid() && Read(old(s.State()), s.State(), DecBlob(f, prev, old(s.Left())), ok)
    ensures ok ==> v == DecBlob(f, prev, old(s.Left())).v
  {
    hide Varint32, Take, Zeros, Low32;
    var size;
    v := prev;
    ok, size := s.DecodeVarint32();
    if !ok {
      return;
    }
    if f.ltype.Bytes? {
      if size > PB_SIZE_MAX || size + BYTES_HEADER > f.dataSize {
        return false, v;
      }
      ok, v := s.ReadBytes(size);
    } else if f.ltype.String? {
      var allocSize := Low32(size + 1);
      if allocSize < size || allocSize > f.dataSize {
        return false, v;
      }
      var data;
      ok, data := s.ReadBytes(size);
      if ok {
        StringFits(size, f.dataSize);
        v := data + [0] + prev[size + 1..];
      }
    } else {
      if size > PB_SIZE_MAX {
        return false, v;
      }
      if size == 0 {
        v := Zeros(f.dataSize);
        return;
      }
      if size != f.dataSize {
        return false, v;
      }
      ok, v := s.ReadBytes(f.dataSize);
    }
  }

  lemma StringFits(size: nat, n: nat)
    requires size < TWO_32 && size <= Low32(size + 1) <= n
    ensures size + 1 <= n
  {
  }

  // ---------- Defaults ----------

  /** pb_field_set_to_default. */
  method SetFieldToDefault(f: Field, s: Slot) returns (r: Slot)
    requires WFField(f) && ShapeSlot(f, s)
    ensures r == DefaultSlot(f, s)
    decreases f, 1
  {
    hide WF, Shape, DefaultMessage;
    var initData := true;
    r := s;
    if f.htype.Optional? && f.sizeOffset != 0 {
      r := Opt(false, r.v);
    } else if f.htype.Repeated? {
      if f.sizeOffset != 0 {
        r := Rep(0, r.items);
      }
      initData := false;
    } else if f.htype.OneOf? {
      r := Union(0, r.v);
      initData := false;
    }
    if initData {
      var v;
      if f.ltype.SubMessage? {
        v := SubmessageDefaults(f.ptr.desc, r.v);
      } else if f.ptr.DefaultPtr? {
        v := f.ptr.value;
      } else {
        v := ZeroValue(f);
      }
      r := if r.Single? then Single(v) else Opt(r.has, v);
    }
  }

  /** The recursive call of pb_field_set_to_default, on the part of the struct that is the submessage. */
  method SubmessageDefaults(d: Desc, v: Value) returns (r: Value)
    requires WF(d) && v.Sub? && Shape(d, v.slots)
    ensures r == Sub(DefaultMessage(d, v.slots))
    decreases d, 1
  {
    var sub := new Struct(v.slots);
    SetToDefaults(d, sub);
    r := Sub(sub.slots);
  }

  /** What slot j holds when the first k entries have been set to their defaults. */
  predicate DefaultsReached(d: Desc, m: seq<Slot>, r: seq<Slot>, k: nat, j: nat)
    requires WF(d) && Shape(d, m) && |r| == |m| && j < |m|
  {
    r[j] == if j < k && SlotOf(d.fields, j) == j then DefaultSlot(d.fields[j], SlotAt(d, m, j)) else m[j]
  }

  lemma DefaultsHere(d: Desc, m: seq<Slot>, r: seq<Slot>, k: nat)
    requires WF(d) && Shape(d, m) && |r| == |m| && k < |m|
    requires DefaultsReached(d, m, r, k, SlotOf(d.fields, k))
    ensures WFField(d.fields[k]) && ShapeSlot(d.fields[k], r[SlotOf(d.fields, k)])
    ensures SlotOf(d.fields, k) == k ==> r[k] == m[k]
    ensures SlotOf(d.fields, k) != k ==> DefaultSlot(d.fields[k], r[SlotOf(d.fields, k)]) == r[SlotOf(d.fields, k)]
  {
    hide WF, Shape, ShapeValue, DefaultValue;
    ShapeLength(d, m);
    var i := SlotOf(d.fields, k);
    SlotOfSlot(d.fields, k);
    var f, t := d.fields[k], SlotAt(d, m, k);
    if i != k {
      var first := SlotAt(d, m, i);
      UnionDefault(d.fields[i], f, first);
    }
  }

  /** Once its first member has been set to its default, a union is in the default state of all members. */
  lemma UnionDefault(f: Field, g: Field, s: Slot)
    requires WFField(f) && WFField(g) && f.htype.OneOf? && g.htype.OneOf? && ShapeSlot(f, s)
    ensures ShapeSlot(g, DefaultSlot(f, s)) && DefaultSlot(g, DefaultSlot(f, s)) == DefaultSlot(f, s)
  {
  }

  lemma DefaultsStep(d: Desc, m: seq<Slot>, r: seq<Slot>, k: nat, k': nat)
    requires WF(d) && Shape(d, m) && |r| == |m| && k < |m| && k' == k + 1
    requires forall j: nat | j < |m| :: DefaultsReached(d, m, r, k, j)
    ensures WFField(d.fields[k]) && ShapeSlot(d.fields[k], r[SlotOf(d.fields, k)])
    ensures var r' := r[SlotOf(d.fields, k) := DefaultSlot(d.fields[k], r[SlotOf(d.fields, k)])];
            forall j: nat | j < |m| :: DefaultsReached(d, m, r', k', j)
  {
    hide WF, Shape, WFField, ShapeSlot, DefaultSlot;
    ShapeLength(d, m);
    var i := SlotOf(d.fields, k);
    assert DefaultsReached(d, m, r, k, i);
    DefaultsHere(d, m, r, k);
    var r' := r[i := DefaultSlot(d.fields[k], r[i])];
    forall j: nat | j < |m| ensures DefaultsReached(d, m, r', k', j) {
      assert DefaultsReached(d, m, r, k, j);
    }
  }

  lemma DefaultsComplete(d: Desc, m: seq<Slot>, r: seq<Slot>)
    requires WF(d) && Shape(d, m) && |r| == |m|
    requires forall j: nat | j < |m| :: DefaultsReached(d, m, r, |m|, j)
    ensures r == DefaultMessage(d, m)
  {
    hide ShapeValue, ShapeSlot, WFField, DefaultSlot;
    var q := DefaultMessage(d, m);
    forall j | 0 <= j < |m| ensures r[j] == q[j] {
      assert DefaultsReached(d, m, r, |m|, j);
    }
  }

  lemma TableIsShared(d: Desc)
    requires WF(d)
    ensures SharedWhich(d.fields)
  {
  }

  /** pb_message_set_to_defaults. */
  method SetToDefaults(d: Desc, dest: Struct)
    requires WF(d) && Shape(d, dest.slots)
    modifies dest
    ensures dest.slots == DefaultMessage(d, old(dest.slots))
    decreases d, 0
  {
    hide WF, Shape, WFField, ShapeSlot, DefaultSlot, DefaultMessage, FieldIter.Valid, SharedWhich;
    TableIsShared(d);
    ShapeLength(d, dest.slots);
    var iter := new FieldIter(d.fields, 0);
    var more := iter.Begin();
    ghost var m := dest.slots;
    ghost var k := 0;
    while more
      invariant iter.Valid() && iter.fields == d.fields && fresh(iter)
      invariant k <= |d.fields| && (more <==> k < |d.fields|) && (more ==> iter.pos == k)
      invariant |dest.slots| == |m| && forall j: nat | j < |m| :: DefaultsReached(d, m, dest.slots, k, j)
      decreases |d.fields| - k
    {
      DefaultsStep(d, m, dest.slots, k, k + 1);
      var i := SlotOf(d.fields, iter.pos);
      var t := SetFieldToDefault(d.fields[iter.pos], dest.slots[i]);
      dest.slots := dest.slots[i := t];
      k := k + 1;
      more := iter.Next();
    }
    DefaultsComplete(d, m, dest.slots);
  }

  lemma ShapeLength(d: Desc, m: seq<Slot>)
    requires Shape(d, m)
    ensures |m| == |d.fields|
  {
  }

  // ---------- Fields ----------

  /** The decoder of a field's data: PB_DECODERS[PB_LTYPE(type)]; prev is the destination's content. */
  method DecodeValue(s: IStream, f: Field, prev: Value) returns (ok: bool, v: Value)
    requires s.Valid() && WFField(f) && ShapeValue(f, prev)
    modifies s
    ensures s.Valid() && Read(old(s.State()), s.State(), DecValue(f, prev, old(s.Left())), ok)
    ensures ok ==> v == DecValue(f, prev, old(s.Left())).v
    decreases s.bytesLeft, 1
  {
    hide DecScalar, DecBlob, Frame, DecNoInit, WF, Shape;
    if Packable(f.ltype) {
      var i;
      ok, i := DecodeScalar(s, f);
      v := Int(i);
    } else if f.ltype.SubMessage? {
      ok, v := DecodeSubmessage(s, f, prev);
    } else {
      var b;
      ok, b := DecodeBlob(s, f, prev.b);
      v := Blob(b);
    }
  }

  /** pb_dec_submessage: a substream of the declared length, decoded into the struct that is there or a default one. */
  method DecodeSubmessage(s: IStream, f: Field, prev: Value) returns (ok: bool, v: Value)
    requires s.Valid() && WFField(f) && ShapeValue(f, prev) && f.ltype.SubMessage?
    modifies s
    ensures s.Valid() && Read(old(s.State()), s.State(), DecValue(f, prev, old(s.Left())), ok)
    ensures ok ==> v == DecValue(f, prev, old(s.Left())).v
    decreases s.bytesLeft, 0
  {
    hide Apart, Frame, DecValue, DecNoInit, WF, Shape, DefaultMessage, WFField, ShapeValue;
    ghost var a := s.State();
    SubmessageValue(f, prev, s.Left());
    v := prev;
    var sub;
    ok, sub := s.MakeSubstream();
    if !ok {
      return;
    }
    ghost var p, sub0 := s.State(), sub.State();
    ApartFits(a, p, sub0);
    var dest := new Struct(prev.slots);
    var status;
    if f.htype.Repeated? {
      status := Decode(sub, f.ptr.desc, dest);
    } else {
      status := DecodeNoInit(sub, f.ptr.desc, dest);
    }
    ghost var sub1 := sub.State();
    ok := s.CloseSubstream(sub);
    ok := ok && status;
    v := Sub(dest.slots);
    Rejoin(a, p, sub0, sub1, s.State(), DecValue(f, prev, a.Left()), ok);
  }

  lemma SubmessageValue(f: Field, prev: Value, b: bytes)
    requires WFField(f) && ShapeValue(f, prev) && f.ltype.SubMessage?
    ensures f.ptr.FieldsPtr? && prev.Sub? && WF(f.ptr.desc) && Shape(f.ptr.desc, prev.slots)
    ensures Frame(b).Bad? ==> DecValue(f, prev, b) == Bad
    ensures Frame(b).Got? ==>
              var d, body, rest := f.ptr.desc, Frame(b).v, Frame(b).rest;
              var r := if f.htype.Repeated? then DecodeSpec.Decode(d, body, prev.slots) else DecNoInit(d, body, prev.slots);
              DecValue(f, prev, b) == if r.Got? then Got(Sub(r.v), rest) else Bad
  {
    hide Frame, DecNoInit, WF, Shape;
  }

  /** The loop of decode_static_field over a packed array, until the record or the room ends. */
  method DecodePackedItems(sub: IStream, f: Field, start: seq<Value>, count: nat)
    returns (ok: bool, items: seq<Value>, size: nat)
    requires sub.Valid() && Packable(f.ltype) && WFType(f)
    requires count <= |start| && forall j | 0 <= j < |start| :: ShapeValue(f, start[j])
    modifies sub
    ensures ok ==> sub.State().End() == old(sub.State().End())
    ensures sub.Valid() && sub.State().End() <= old(sub.State().End()) && old(sub.pos) <= sub.pos
    ensures ok <==> DecPacked(f, old(sub.Left()), start, count).Some?
    ensures ok ==> DecPacked(f, old(sub.Left()), start, count) == Some((items, size))
  {
    hide DecScalar, WFType;
    ok := true;
    items, size := start, count;
    ghost var target := DecPacked(f, sub.Left(), start, count);
    while sub.bytesLeft > 0 && size < |items|
      invariant ok && sub.Valid() && sub.State().End() == old(sub.State().End()) && old(sub.pos) <= sub.pos
      invariant size <= |items| && forall j | 0 <= j < |items| :: ShapeValue(f, items[j])
      invariant DecPacked(f, sub.Left(), items, size) == target
      decreases sub.bytesLeft
    {
      var v;
      ok, v := DecodeScalar(sub, f);
      if !ok {
        return;
      }
      items := items[size := Int(v)];
      size := size + 1;
    }
    if sub.bytesLeft != 0 {
      ok := false;
    }
  }

  /** The struct, and the loop's own size if it is used, are as the loop state r says. */
  ghost predicate Stored(d: Desc, i: nat, dest: Struct, size: nat, r: Loop)
    requires i < |d.fields|
    reads dest
  {
    dest.slots == r.m && (FixedCount(d.fields[i]) ==> size == r.fixedSize)
  }

  lemma PutItemsIs(d: Desc, i: nat, items: seq<Value>, size: nat, st: Loop)
    requires WF(d) && LoopShape(d, st) && i < |d.fields| && d.fields[i].htype.Repeated?
    requires FixedCount(d.fields[i]) ==> st.fixed == i
    requires |items| == d.fields[i].arraySize >= size
    requires forall j | 0 <= j < |items| :: ShapeValue(d.fields[i], items[j])
    ensures var t, r := SlotAt(d, st.m, i), PutItems(d, i, items, size, st);
            t.Rep? &&
            r.m == st.m[SlotOf(d.fields, i) := Rep(if FixedCount(d.fields[i]) then t.count else size, items)] &&
            (FixedCount(d.fields[i]) ==> r.fixedSize == size)
  {
    hide WF, Shape, ShapeValue;
  }

  lemma ArraySlot(d: Desc, st: Loop, i: nat)
    requires WF(d) && LoopShape(d, st) && i < |d.fields| && d.fields[i].htype.Repeated?
    requires FixedCount(d.fields[i]) ==> st.fixed == i
    ensures var f, t := d.fields[i], SlotAt(d, st.m, i);
            t.Rep? && |t.items| == f.arraySize && SlotOf(d.fields, i) < |st.m| &&
            (forall j | 0 <= j < |t.items| :: ShapeValue(f, t.items[j])) &&
            SizeAt(d, st, i) == if FixedCount(f) then st.fixedSize else t.count
  {
    hide WF, ShapeValue;
  }

  /** The packed branch of decode_static_field; size is the count so far, from the struct or from the loop. */
  method DecodePackedField(s: IStream, d: Desc, i: nat, dest: Struct, size: nat, ghost st: Loop)
    returns (ok: bool, size': nat)
    requires s.Valid() && WF(d) && LoopShape(d, st) && i < |d.fields| && WFField(d.fields[i])
    requires d.fields[i].htype.Repeated? && Packable(d.fields[i].ltype)
    requires FixedCount(d.fields[i]) ==> st.fixed == i
    requires st.m == dest.slots && size == SizeAt(d, st, i)
    modifies s, dest
    ensures s.Valid() && Read(old(s.State()), s.State(), DecPackedField(d, i, old(s.Left()), st), ok)
    ensures ok ==> Stored(d, i, dest, size', DecPackedField(d, i, old(s.Left()), st).v)
  {
    hide Read, Apart, Frame, DecPacked, WF, Shape, PutItems, SizeAt, ShapeValue, ShapeSlot, LoopShape, SlotAt, Packable;
    var f, k := d.fields[i], SlotOf(d.fields, i);
    ghost var a, q := s.State(), DecodeSpec.DecPackedField(d, i, s.Left(), st);
    size' := size;
    ArraySlot(d, st, i);
    var sub;
    ok, sub := s.MakeSubstream();
    if !ok {
      Refused(a, s.State(), q);
      return;
    }
    ghost var p, sub0 := s.State(), sub.State();
    ApartFits(a, p, sub0);
    var t := dest.slots[k];
    var items := t.items;
    if size > f.arraySize {
      ok := sub.bytesLeft == 0;
    } else {
      ok, items, size' := DecodePackedItems(sub, f, t.items, size);
    }
    if !ok {
      Refused(a, s.State(), q);
      return;
    }
    ghost var sub1 := sub.State();
    ok := s.CloseSubstream(sub);
    Rejoin(a, p, sub0, sub1, s.State(), q, ok);
    if size <= f.arraySize {
      PutItemsIs(d, i, items, size', st);
      dest.slots := dest.slots[k := Rep(if FixedCount(f) then t.count else size', items)];
    }
  }

  /** The other branch for repeated fields: one more item. */
  method DecodeItem(s: IStream, d: Desc, i: nat, dest: Struct, size: nat, ghost st: Loop)
    returns (ok: bool, size': nat)
    requires s.Valid() && WF(d) && LoopShape(d, st) && i < |d.fields| && WFField(d.fields[i])
    requires d.fields[i].htype.Repeated?
    requires FixedCount(d.fields[i]) ==> st.fixed == i
    requires st.m == dest.slots && size == SizeAt(d, st, i)
    modifies s, dest
    ensures s.Valid() && Read(old(s.State()), s.State(), DecItem(d, i, old(s.Left()), st), ok)
    ensures ok ==> Stored(d, i, dest, size', DecItem(d, i, old(s.Left()), st).v)
    decreases s.bytesLeft, 2
  {
    hide DecValue, WF, Shape, PutItems, SizeAt, ShapeValue, ShapeSlot, LoopShape, WFField, SlotAt;
    var f, k := d.fields[i], SlotOf(d.fields, i);
    ArraySlot(d, st, i);
    size' := size + 1;
    if size >= f.arraySize {
      return false, size';
    }
    var t := dest.slots[k];
    var v;
    ok, v := DecodeValue(s, f, t.items[size]);
    if ok {
      PutItemsIs(d, i, t.items[size := v], size', st);
      dest.slots := dest.slots[k := Rep(if FixedCount(f) then t.count else size', t.items[size := v])];
    }
  }

  /** A field that is not repeated: the branches of decode_static_field that mark it present and decode it. */
  method DecodeSingle(s: IStream, d: Desc, i: nat, ghost wt: nat, dest: Struct, ghost st: Loop) returns (ok: bool)
    requires s.Valid() && WF(d) && LoopShape(d, st) && i < |d.fields| && WFField(d.fields[i])
    requires !d.fields[i].htype.Repeated? && st.m == dest.slots
    modifies s, dest
    ensures s.Valid() && Read(old(s.State()), s.State(), DecField(d, i, wt, old(s.Left()), st), ok)
    ensures ok ==> dest.slots == DecField(d, i, wt, old(s.Left()), st).v.m
    decreases s.bytesLeft, 2
  {
    hide DecValue, WF, Shape, ShapeValue, WFField, DefaultValue, ZeroValue;
    ShapeLength(d, dest.slots);
    var f, k := d.fields[i], SlotOf(d.fields, i);
    var t := SlotAt(d, dest.slots, i);
    var v;
    if f.htype.OneOf? {
      var start := PrepareUnion(f, t);
      ok, v := DecodeValue(s, f, start);
      if ok {
        dest.slots := dest.slots[k := Union(f.tag, v)];
      }
    } else {
      ok, v := DecodeValue(s, f, t.v);
      if ok {
        dest.slots := dest.slots[k := if f.htype.Optional? && f.sizeOffset != 0 then Opt(true, v) else Single(v)];
      }
    }
  }

  /** What decode_static_field does to a union before it decodes a member: a submessage is zeroed and set to its defaults. */
  method PrepareUnion(f: Field, t: Slot) returns (v: Value)
    requires WFField(f) && f.htype.OneOf? && ShapeSlot(f, t)
    ensures v == UnionStart(f, t)
  {
    hide WF, Shape, DefaultMessage;
    if f.ltype.SubMessage? {
      v := SubmessageDefaults(f.ptr.desc, ZeroValue(f));
    } else if t.which == f.tag {
      v := t.v;
    } else {
      v := ZeroValue(f);
    }
  }

  /** decode_static_field. */
  method DecodeField(s: IStream, d: Desc, i: nat, wt: nat, dest: Struct, fixedSize: nat, ghost st: Loop)
    returns (ok: bool, fixedSize': nat)
    requires s.Valid() && WF(d) && LoopShape(d, st) && i < |d.fields|
    requires FixedCount(d.fields[i]) ==> st.fixed == i
    requires st.m == dest.slots && fixedSize == st.fixedSize
    modifies s, dest
    ensures s.Valid() && Read(old(s.State()), s.State(), DecField(d, i, wt, old(s.Left()), st), ok)
    ensures var r := DecField(d, i, wt, old(s.Left()), st); ok ==> dest.slots == r.v.m && fixedSize' == r.v.fixedSize
    decreases s.bytesLeft, 3
  {
    hide DecValue, DecPackedField, DecItem, WF, Shape, ShapeValue, ShapeSlot, WFField, PutSlot, UnionStart;
    var f, k := d.fields[i], SlotOf(d.fields, i);
    ghost var t := SlotAt(d, dest.slots, i);
    fixedSize' := fixedSize;
    if !f.htype.Repeated? {
      ok := DecodeSingle(s, d, i, wt, dest, st);
      SameSize(d, i, wt, old(s.Left()), st);
      return;
    }
    ArraySlot(d, st, i);
    var size := if f.sizeOffset == 0 then fixedSize else dest.slots[k].count;
    if wt == WT_STRING && Packable(f.ltype) {
      ok, size := DecodePackedField(s, d, i, dest, size, st);
    } else {
      ok, size := DecodeItem(s, d, i, dest, size, st);
    }
    SameSize(d, i, wt, old(s.Left()), st);
    if f.sizeOffset == 0 {
      fixedSize' := size;
    }
  }

  /** Only fixed-count arrays use the loop's own size. */
  lemma SameSize(d: Desc, i: nat, wt: nat, b: bytes, st: Loop)
    requires WF(d) && LoopShape(d, st) && i < |d.fields| && (FixedCount(d.fields[i]) ==> st.fixed == i)
    ensures var r := DecField(d, i, wt, b, st);
            r.Got? && !FixedCount(d.fields[i]) ==> r.v.fixedSize == st.fixedSize
  {
    hide DecValue, Frame, DecPacked, UnionStart, WF, Shape, WFField, ShapeValue;
  }

  // ---------- The field loop ----------

  /** The local variables of pb_decode_noinit are as the loop state st says. */
  ghost predicate Tracks(d: Desc, dest: Struct, fieldsSeen: array<nat>, fixedField: int, fixedSize: nat, st: Loop)
    reads dest, fieldsSeen
  {
    WF(d) && LoopShape(d, st) && dest.slots == st.m && fixedField == st.fixed && fixedSize == st.fixedSize &&
    Records(fieldsSeen[..], st.seen) && forall r | r in st.seen :: r < RequiredBefore(d.fields, |d.fields|)
  }

  /** The bookkeeping of pb_decode_noinit before a field is decoded. */
  method EnterField(d: Desc, iter: FieldIter, dest: Struct, fieldsSeen: array<nat>,
                    fixedField: int, fixedSize: nat, ghost st: Loop)
    returns (ok: bool, fixedField': int, fixedSize': nat)
    requires iter.Valid() && iter.fields == d.fields && iter.pos < |d.fields|
    requires Tracks(d, dest, fieldsSeen, fixedField, fixedSize, st)
    modifies fieldsSeen
    ensures ok <==> Enter(d, iter.pos, st).Some?
    ensures ok ==> Tracks(d, dest, fieldsSeen, fixedField', fixedSize', Enter(d, iter.pos, st).value)
  {
    hide WF, Shape, Records;
    ok, fixedField', fixedSize' := true, fixedField, fixedSize;
    var i := iter.pos;
    var f := d.fields[i];
    if f.htype.Repeated? && iter.pSize == iter.pData {
      if fixedField != i {
        if fixedField != -1 && fixedSize != d.fields[fixedField].arraySize {
          ok := false;
          return;
        }
        fixedField', fixedSize' := i, 0;
      }
    }
    if f.htype.Required? && iter.requiredFieldIndex < PB_MAX_REQUIRED_FIELDS {
      RequiredBeforeGrows(d.fields, i, |d.fields|);
      Mark(fieldsSeen, iter.requiredFieldIndex, st.seen);
    }
  }

  /** One round of the loop after the tag has been read. */
  method DecodeOne(s: IStream, d: Desc, iter: FieldIter, tag: nat, wt: nat, dest: Struct,
                   fieldsSeen: array<nat>, fixedField: int, fixedSize: nat, ghost st: Loop)
    returns (ok: bool, fixedField': int, fixedSize': nat)
    requires s.Valid() && iter.Valid() && iter.fields == d.fields
    requires Tracks(d, dest, fieldsSeen, fixedField, fixedSize, st)
    modifies s, iter, dest, fieldsSeen
    ensures s.Valid() && iter.Valid() && Read(old(s.State()), s.State(), DecStep(d, tag, wt, old(s.Left()), st), ok)
    ensures ok ==> Tracks(d, dest, fieldsSeen, fixedField', fixedSize', DecStep(d, tag, wt, old(s.Left()), st).v)
    decreases s.bytesLeft, 4
  {
    hide DecField, Enter, Skip, Varint32, FindTag, WF, Shape, Records, FieldIter.Valid, LoopShape;
    fixedField', fixedSize' := fixedField, fixedSize;
    var found := iter.Find(tag);
    FoundIs(d, iter, tag, found);
    if !found {
      ok := s.SkipField(wt);
      return;
    }
    if iter.pos >= |d.fields| {
      // The terminator of an empty table is taken for a bool field.
      var value;
      ok, value := s.DecodeVarint32();
      return;
    }
    var i := iter.pos;
    ok, fixedField', fixedSize' := EnterField(d, iter, dest, fieldsSeen, fixedField, fixedSize, st);
    if !ok {
      return;
    }
    ghost var st1 := Enter(d, i, st).value;
    ok, fixedSize' := DecodeField(s, d, i, wt, dest, fixedSize', st1);
  }

  /** The iterator finds the entry that the tag determines. */
  lemma FoundIs(d: Desc, iter: FieldIter, tag: nat, found: bool)
    requires WF(d) && iter.Valid() && iter.fields == d.fields
    requires found <==> (exists i | 0 <= i < |d.fields| :: d.fields[i].tag == tag) || (d.fields == [] && tag == 0)
    requires found ==> iter.Tag() == tag
    ensures !found ==> FindTag(d.fields, tag) < 0 && !(tag == 0 && d.fields == [])
    ensures found && iter.pos < |d.fields| ==> FindTag(d.fields, tag) == iter.pos
    ensures found && iter.pos >= |d.fields| ==> d.fields == [] && tag == 0 && FindTag(d.fields, tag) < 0
    ensures iter.pos < |d.fields| ==> iter.requiredFieldIndex == RequiredBefore(d.fields, iter.pos)
    ensures iter.pos < |d.fields| ==> (iter.pSize == iter.pData <==> d.fields[iter.pos].sizeOffset == 0)
  {
    if found && iter.pos < |d.fields| {
      FindTagUnique(d.fields, iter.pos);
    }
  }

  /** The whole field loop: to the end of the stream or to a zero tag. */
  method DecodeFields(s: IStream, d: Desc, iter: FieldIter, dest: Struct, fieldsSeen: array<nat>)
    returns (ok: bool, fixedField: int, fixedSize: nat)
    requires s.Valid() && iter.Valid() && iter.fields == d.fields && WF(d) && Shape(d, dest.slots)
    requires fieldsSeen.Length == 2 && fieldsSeen[0] == fieldsSeen[1] == 0
    modifies s, iter, dest, fieldsSeen
    ensures s.Valid() && iter.Valid() && iter.fields == d.fields
    ensures Read(old(s.State()), s.State(), DecLoop(d, old(s.Left()), Start(old(dest.slots))), ok)
    ensures ok ==> Tracks(d, dest, fieldsSeen, fixedField, fixedSize, DecLoop(d, old(s.Left()), Start(old(dest.slots))).v)
    decreases s.bytesLeft, 5
  {
    hide DecStep, DecTag, WF, Shape, Records, FieldIter.Valid, LoopShape;
    ok, fixedField, fixedSize := true, -1, 0;
    ghost var st := Start(dest.slots);
    StartTracks(d, dest, fieldsSeen);
    ghost var target := DecLoop(d, s.Left(), st);
    while s.bytesLeft > 0
      invariant s.Valid() && iter.Valid() && iter.fields == d.fields
      invariant s.State().End() == old(s.State().End()) && old(s.pos) <= s.pos
      invariant Tracks(d, dest, fieldsSeen, fixedField, fixedSize, st)
      invariant DecLoop(d, s.Left(), st) == target
      decreases s.bytesLeft
    {
      ghost var t := DecTag(s.Left());
      var wt, tag, eof;
      ok, wt, tag, eof := s.DecodeTag();
      if !ok {
        if eof {
          st := st.(ended := true);
          EndedTracks(d, dest, fieldsSeen, fixedField, fixedSize, st);
          return true, fixedField, fixedSize;
        }
        return;
      }
      ghost var step := DecStep(d, tag, wt, s.Left(), st);
      ok, fixedField, fixedSize := DecodeOne(s, d, iter, tag, wt, dest, fieldsSeen, fixedField, fixedSize, st);
      if !ok {
        return;
      }
      st := step.v;
    }
  }

  lemma StartTracks(d: Desc, dest: Struct, fieldsSeen: array<nat>)
    requires WF(d) && Shape(d, dest.slots) && fieldsSeen.Length == 2 && fieldsSeen[0] == fieldsSeen[1] == 0
    ensures Tracks(d, dest, fieldsSeen, -1, 0, Start(dest.slots))
  {
    hide WF, Shape, Records;
    assert fieldsSeen[..] == [0, 0];
    NothingRecorded(fieldsSeen[..]);
  }

  lemma EndedTracks(d: Desc, dest: Struct, fieldsSeen: array<nat>, fixedField: int, fixedSize: nat, st: Loop)
    requires Tracks(d, dest, fieldsSeen, fixedField, fixedSize, st.(ended := false)) ||
             Tracks(d, dest, fieldsSeen, fixedField, fixedSize, st.(ended := true))
    ensures Tracks(d, dest, fieldsSeen, fixedField, fixedSize, st)
  {
    hide WF, Shape, Records;
  }

  /** pb_decode_noinit. */
  method DecodeNoInit(s: IStream, d: Desc, dest: Struct) returns (ok: bool)
    requires s.Valid() && WF(d) && Shape(d, dest.slots)
    modifies s, dest
    ensures s.Valid() && Read(old(s.State()), s.State(), DecNoInit(d, old(s.Left()), old(dest.slots)), ok)
    ensures ok ==> dest.slots == DecNoInit(d, old(s.Left()), old(dest.slots)).v
    decreases s.bytesLeft, 6
  {
    hide DecLoop, WF, Shape, Records, FieldIter.Valid, SharedWhich;
    TableIsShared(d);
    TagsNotZero(d);
    var fieldsSeen := new nat[2](i => 0);
    var iter := new FieldIter(d.fields, 0);
    var fixedField, fixedSize;
    ok, fixedField, fixedSize := DecodeFields(s, d, iter, dest, fieldsSeen);
    if !ok {
      return;
    }
    ghost var st := DecLoop(d, old(s.Left()), Start(old(dest.slots))).v;
    if fixedField != -1 && fixedSize != d.fields[fixedField].arraySize {
      return false;
    }
    var count := CountRequired(iter);
    if count > PB_MAX_REQUIRED_FIELDS {
      count := PB_MAX_REQUIRED_FIELDS;
    }
    RecordsBound(fieldsSeen[..], st.seen);
    ok := CheckRequired(fieldsSeen, count, st.seen);
  }

  lemma RecordsBound(w: seq<nat>, seen: set<nat>)
    requires Records(w, seen)
    ensures forall r | r in seen :: r < PB_MAX_REQUIRED_FIELDS
  {
  }

  lemma TagsNotZero(d: Desc)
    requires WF(d)
    ensures forall i | 0 <= i < |d.fields| :: d.fields[i].tag != 0
  {
    forall i | 0 <= i < |d.fields| ensures d.fields[i].tag != 0 {
      assert WFField(d.fields[i]);
    }
  }

  // ---------- The public entry points ----------

  /** pb_decode, which also accepts a message that ends with a zero byte. */
  method Decode(s: IStream, d: Desc, dest: Struct) returns (ok: bool)
    requires s.Valid() && WF(d) && Shape(d, dest.slots)
    modifies s, dest
    ensures s.Valid() && Read(old(s.State()), s.State(), DecodeSpec.Decode(d, old(s.Left()), old(dest.slots)), ok)
    ensures ok ==> dest.slots == DecodeSpec.Decode(d, old(s.Left()), old(dest.slots)).v
    decreases s.bytesLeft, 7
  {
    hide DecNoInit, WF, Shape, DefaultMessage;
    SetToDefaults(d, dest);
    ok := DecodeNoInit(s, d, dest);
  }

  /** pb_decode_delimited. */
  method DecodeDelimited(s: IStream, d: Desc, dest: Struct) returns (ok: bool)
    requires s.Valid() && WF(d) && Shape(d, dest.slots)
    modifies s, dest
    ensures s.Valid() && Read(old(s.State()), s.State(), DecodeSpec.DecodeDelimited(d, old(s.Left()), old(dest.slots)), ok)
    ensures ok ==> dest.slots == DecodeSpec.DecodeDelimited(d, old(s.Left()), old(dest.slots)).v
  {
    hide Apart, Frame, DecodeSpec.Decode, WF, Shape;
    ghost var a := s.State();
    var sub;
    ok, sub := s.MakeSubstream();
    if !ok {
      return;
    }
    ghost var p, sub0 := s.State(), sub.State();
    ApartFits(a, p, sub0);
    var status := Decode(sub, d, dest);
    ghost var sub1 := sub.State();
    ok := s.CloseSubstream(sub);
    ok := ok && status;
    Rejoin(a, p, sub0, sub1, s.State(), DecodeSpec.DecodeDelimited(d, a.Left(), old(dest.slots)), ok);
  }
}
