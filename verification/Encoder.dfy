/** The encoder: writes the fields of a struct, one after the other, to an output stream. */
module Encoder {
  import opened Basics
  import opened Varint
  import opened Scalars
  import opened Message
  import opened EncodeSpec
  import opened DecodeSpec
  import opened SizeBound
  import opened Iterator
  import opened OutputStream

  // ---------- Integers ----------

  /** The groups of v with the continuation bit on every byte, as the loop of pb_encode_varint leaves them. */
  function Groups(v: nat): bytes {
    if v == 0 then [] else [v % 128 + 128] + Groups(v / 128)
  }

  lemma {:induction false} GroupsVarint(v: nat)
    requires v > 0
    ensures |Groups(v)| == |EncVarint(v)| > 0
    ensures EncVarint(v) == Groups(v)[..|Groups(v)| - 1] + [Groups(v)[|Groups(v)| - 1] % 128]
  {
    if v >= 128 {
      GroupsVarint(v / 128);
      var g, h := Groups(v), Groups(v / 128);
      assert g[..|g| - 1] == [g[0]] + h[..|h| - 1];
    } else {
      assert Groups(v / 128) == [];
      assert (v + 128) % 128 == v;
    }
  }

  /** pb_encode_varint. */
  method EncodeVarint(s: OStream, value: nat) returns (ok: bool)
    requires s.Valid() && value < TWO_64
    modifies s, s.buf
    ensures Wrote(old(s.State()), s.State(), Some(EncVarint(value)), ok)
  {
    if value <= 0x7F {
      ok := s.Write([value]);
      return;
    }
    var buffer := FillGroups(value);
    ok := s.Write(buffer);
  }

  lemma GroupsStep(b: bytes, v: nat)
    requires v > 0
    ensures Groups(v) != [] && b + Groups(v) == b + [v % 128 + 128] + Groups(v / 128)
  {
  }

  /** The local buffer of pb_encode_varint. */
  method FillGroups(value: nat) returns (data: bytes)
    requires 0x80 <= value < TWO_64
    ensures data == EncVarint(value)
  {
    var buffer := new byte[10];
    var i, v := 0, value;
    GroupsVarint(value);
    EncVarintAtMostTen(value);
    while v > 0
      invariant i <= 10 && buffer[..i] + Groups(v) == Groups(value)
      decreases v
    {
      GroupsStep(buffer[..i], v);
      buffer[i] := v % 128 + 128;
      assert buffer[..i + 1] == buffer[..i] + [v % 128 + 128];
      v := v / 128;
      i := i + 1;
    }
    assert buffer[..i] == Groups(value);
    buffer[i - 1] := buffer[i - 1] % 128;
    data := buffer[..i];
  }

  /** pb_encode_svarint. */
  method EncodeSVarint(s: OStream, value: int) returns (ok: bool)
    requires s.Valid() && -TWO_63 <= value < TWO_63
    modifies s, s.buf
    ensures Wrote(old(s.State()), s.State(), Some(EncVarint(ZigZag(value))), ok)
  {
    var zigzagged;
    if value < 0 {
      zigzagged := TWO_64 - 1 - Low64(2 * Unsigned64(value));
    } else {
      zigzagged := Low64(2 * Unsigned64(value));
    }
    ok := EncodeVarint(s, zigzagged);
  }

  /** pb_encode_fixed32. */
  method EncodeFixed32(s: OStream, val: nat) returns (ok: bool)
    requires s.Valid()
    modifies s, s.buf
    ensures Wrote(old(s.State()), s.State(), Some(Little(val, 4)), ok)
  {
    LittleFour(val, 0);
    ok := s.Write([val % 256, val / 0x100 % 256, val / 0x1_0000 % 256, val / 0x100_0000 % 256]);
  }

  /** pb_encode_fixed64. */
  method EncodeFixed64(s: OStream, val: nat) returns (ok: bool)
    requires s.Valid()
    modifies s, s.buf
    ensures Wrote(old(s.State()), s.State(), Some(Little(val, 8)), ok)
  {
    var high := val / 0x1_0000_0000;
    LittleFour(val, 4);
    LittleFour(high, 0);
    ok := s.Write([val % 256, val / 0x100 % 256, val / 0x1_0000 % 256, val / 0x100_0000 % 256,
                   high % 256, high / 0x100 % 256, high / 0x1_0000 % 256, high / 0x100_0000 % 256]);
  }

  // ---------- Tags and length-delimited data ----------

  /** pb_encode_tag. */
  method EncodeTag(s: OStream, wt: nat, tag: nat) returns (ok: bool)
    requires s.Valid() && tag < TWO_29 && wt < 8
    modifies s, s.buf
    ensures Wrote(old(s.State()), s.State(), Some(Tag(wt, tag)), ok)
  {
    ok := EncodeVarint(s, 8 * tag + wt);
  }

  /** pb_encode_tag_for_field. */
  method EncodeTagForField(s: OStream, f: Field) returns (ok: bool)
    requires s.Valid() && f.tag < TWO_29
    modifies s, s.buf
    ensures Wrote(old(s.State()), s.State(), Some(Tag(WireType(f.ltype), f.tag)), ok)
  {
    var wt;
    match f.ltype {
      case Bool | VarInt | UVarInt | SVarInt => wt := WT_VARINT;
      case Fixed32 => wt := WT_32BIT;
      case Fixed64 => wt := WT_64BIT;
      case Bytes | String | SubMessage | FixedLengthBytes => wt := WT_STRING;
    }
    ok := EncodeTag(s, wt, f.tag);
  }

  /** pb_encode_string. */
  method EncodeString(s: OStream, data: bytes) returns (ok: bool)
    requires s.Valid() && |data| < TWO_64
    modifies s, s.buf
    ensures Wrote(old(s.State()), s.State(), Some(Delimited(data)), ok)
  {
    ghost var a := s.State();
    ok := EncodeVarint(s, |data|);
    ghost var b := s.State();
    if !ok {
      WroteFailed(a, b, Some(EncVarint(|data|)), Some(data));
      return;
    }
    ok := s.Write(data);
    WroteThen(a, b, s.State(), Some(EncVarint(|data|)), Some(data), ok);
  }

  // ---------- proto3 default test ----------

  /** pb_check_proto3_default_value. */
  method CheckProto3Default(f: Field, s: Slot) returns (isDefault: bool)
    requires WFField(f) && ShapeSlot(f, s)
    ensures isDefault <==> Proto3Default(f, s)
    decreases f, 1
  {
    hide WF, Shape, ShapeValue;
    if f.htype.Required? {
      return false;
    } else if f.htype.Repeated? {
      if f.sizeOffset != 0 {
        return s.count == 0;
      } else {
        return false;
      }
    } else if f.htype.OneOf? {
      return s.which == 0;
    } else if f.sizeOffset != 0 {
      return !s.has;
    }
    isDefault := CheckItem(f, s.v);
  }

  /** The branches of pb_check_proto3_default_value for proto3 singular fields. */
  method CheckItem(f: Field, v: Value) returns (isDefault: bool)
    requires WFField(f) && ShapeValue(f, v)
    ensures isDefault <==> DefaultItem(f, v)
    decreases f, 0
  {
    if f.ltype.Bytes? {
      return v.b == [];
    } else if f.ltype.String? {
      return v.b[0] == 0;
    } else if f.ltype.FixedLengthBytes? {
      return f.dataSize == 0;
    } else if f.ltype.SubMessage? {
      isDefault := CheckAll(f.ptr.desc, v.slots);
    } else {
      return v.i == 0;
    }
  }

  /** Entry i passes the test. */
  predicate DefaultAt(d: Desc, m: seq<Slot>, i: nat)
    requires WF(d) && Shape(d, m) && i < |d.fields|
  {
    Proto3Default(d.fields[i], SlotAt(d, m, i))
  }

  lemma AllDefaultMeans(d: Desc, m: seq<Slot>)
    requires WF(d) && Shape(d, m)
    ensures SharedWhich(d.fields)
    ensures AllDefault(d, m) <==> forall i: nat | i < |d.fields| :: DefaultAt(d, m, i)
  {
    hide Proto3Default;
    if forall i: nat | i < |d.fields| :: DefaultAt(d, m, i) {
      forall i | 0 <= i < |d.fields| ensures Proto3Default(d.fields[i], SlotAt(d, m, i)) {
        assert DefaultAt(d, m, i);
      }
    }
  }

  /** The loop over a submessage in pb_check_proto3_default_value. */
  method CheckAll(d: Desc, m: seq<Slot>) returns (isDefault: bool)
    requires WF(d) && Shape(d, m)
    ensures isDefault <==> AllDefault(d, m)
    decreases d
  {
    hide WF, Shape, WFField, ShapeSlot, Proto3Default, AllDefault, SharedWhich, FieldIter.Valid, SlotAt;
    AllDefaultMeans(d, m);
    var iter := new FieldIter(d.fields, 0);
    var more := iter.Begin();
    ghost var k := 0;
    while more
      invariant iter.Valid() && iter.fields == d.fields
      invariant k <= |d.fields| && (more <==> k < |d.fields|) && (more ==> iter.pos == k)
      invariant forall i: nat | i < k :: DefaultAt(d, m, i)
      decreases |d.fields| - k
    {
      var f := d.fields[iter.pos];
      var isZero := CheckProto3Default(f, SlotAt(d, m, iter.pos));
      assert isZero <==> DefaultAt(d, m, k);
      if !isZero {
        return false;
      }
      k := k + 1;
      more := iter.Next();
    }
    return true;
  }

  // ---------- Data items ----------

  /** The encoders of integer fields: pb_enc_bool, _varint, _uvarint, _svarint, _fixed32, _fixed64. */
  method EncodeScalar(s: OStream, f: Field, i: int) returns (ok: bool)
    requires s.Valid() && Packable(f.ltype) && WFType(f) && ShapeValue(f, Int(i))
    modifies s, s.buf
    ensures Wrote(old(s.State()), s.State(), Some(EncScalar(f, i)), ok)
  {
    hide Wrote, EncVarint, Little;
    match f.ltype {
      case Bool => ok := EncodeVarint(s, if i != 0 then 1 else 0);
      case VarInt => ok := EncodeVarint(s, Unsigned64(i));
      case UVarInt => UnsignedFitsWord(f.dataSize, i); ok := EncodeVarint(s, i);
      case SVarInt => ok := EncodeSVarint(s, i);
      case Fixed32 => ok := EncodeFixed32(s, i);
      case Fixed64 => ok := EncodeFixed64(s, i);
    }
  }

  /** The length of a string up to its NUL or the end of its buffer, as pb_enc_string counts it. */
  method StringLength(b: bytes) returns (size: nat)
    ensures size == |CStr(b)|
  {
    size := 0;
    while size < |b| && b[size] != 0
      invariant size <= |b| && forall j | 0 <= j < size :: b[j] != 0
    {
      size := size + 1;
    }
    assert CStr(b) == b[..|CStr(b)|];
  }

  /** pb_enc_bytes, pb_enc_string and pb_enc_fixed_length_bytes. */
  method EncodeBlob(s: OStream, f: Field, v: Value) returns (ok: bool)
    requires s.Valid() && WFField(f) && ShapeValue(f, v) && MaxValue(f) < TWO_64
    requires f.ltype.Bytes? || f.ltype.String? || f.ltype.FixedLengthBytes?
    modifies s, s.buf
    ensures Wrote(old(s.State()), s.State(), EncValue(f, v), ok)
  {
    hide CStr;
    if f.ltype.Bytes? {
      if |v.b| + BYTES_HEADER > f.dataSize {
        return false;
      }
      ok := EncodeString(s, v.b);
    } else if f.ltype.String? {
      var size := StringLength(v.b);
      ok := EncodeString(s, v.b[..size]);
    } else {
      ok := EncodeString(s, v.b);
    }
  }

  // ---------- Arrays ----------

  lemma PackedStep(f: Field, items: seq<Value>, i: nat)
    requires Packable(f.ltype) && i < |items| && forall j | 0 <= j < |items| :: ShapeValue(f, items[j])
    ensures items[i].Int? && items[i] == Int(items[i].i)
    ensures EncPacked(f, items[i..]) == EncScalar(f, items[i].i) + EncPacked(f, items[i + 1..])
  {
    assert ShapeValue(f, items[i]);
    assert items[i..][0] == items[i] && items[i..][1..] == items[i + 1..];
  }

  lemma PackedNone(f: Field, items: seq<Value>)
    requires Packable(f.ltype) && items == []
    ensures EncPacked(f, items) == []
  {
  }

  lemma {:induction false} PackedSize(f: Field, items: seq<Value>)
    requires Packable(f.ltype) && forall j | 0 <= j < |items| :: ShapeValue(f, items[j])
    ensures f.ltype.Fixed32? ==> |EncPacked(f, items)| == 4 * |items|
    ensures f.ltype.Fixed64? ==> |EncPacked(f, items)| == 8 * |items|
  {
    if items != [] {
      assert ShapeValue(f, items[0]);
      PackedSize(f, items[1..]);
    }
  }

  /** A pass over the items of a packed array, on the sizing stream or on the real one. */
  method EncodePackedItems(s: OStream, f: Field, items: seq<Value>) returns (ok: bool)
    requires s.Valid() && Packable(f.ltype) && WFType(f)
    requires forall j | 0 <= j < |items| :: ShapeValue(f, items[j])
    modifies s, s.buf
    ensures Wrote(old(s.State()), s.State(), Some(EncPacked(f, items)), ok)
  {
    hide Wrote, EncScalar, ShapeValue, WFType, EncPacked;
    ghost var a := s.State();
    ghost var e: bytes := [];
    WroteNothing(a);
    assert items[0..] == items;
    for i := 0 to |items|
      invariant s.Valid() && Wrote(a, s.State(), Some(e), true)
      invariant e + EncPacked(f, items[i..]) == EncPacked(f, items)
    {
      ghost var b := s.State();
      PackedStep(f, items, i);
      ghost var one, rest := EncScalar(f, items[i].i), EncPacked(f, items[i + 1..]);
      ok := EncodeScalar(s, f, items[i].i);
      WroteThen(a, b, s.State(), Some(e), Some(one), ok);
      if !ok {
        WroteFailed(a, s.State(), Some(e + one), Some(rest));
        assert e + one + rest == EncPacked(f, items);
        return;
      }
      assert e + one + rest == e + (one + rest);
      e := e + one;
      WroteValid(a, s.State(), Some(e), true);
    }
    PackedNone(f, items[|items|..]);
    assert e + [] == e;
    ok := true;
  }

  /** The size of a packed array: a product for fixed-size items, a sizing pass for varints. */
  method PackedLength(f: Field, items: seq<Value>) returns (size: nat)
    requires Packable(f.ltype) && WFType(f) && forall j | 0 <= j < |items| :: ShapeValue(f, items[j])
    ensures size == |EncPacked(f, items)|
  {
    hide Wrote, EncPacked;
    if f.ltype.Fixed32? {
      PackedSize(f, items);
      size := 4 * |items|;
    } else if f.ltype.Fixed64? {
      PackedSize(f, items);
      size := 8 * |items|;
    } else {
      var sizeStream := new OStream.Sizing();
      var counted := EncodePackedItems(sizeStream, f, items);
      SizingCounts(sizeStream.State(), EncPacked(f, items), counted);
      size := sizeStream.bytesWritten;
    }
  }

  /** The size and the items of a packed array; a sizing stream only takes the size. */
  method EncodePackedBody(s: OStream, f: Field, items: seq<Value>) returns (ok: bool)
    requires s.Valid() && Packable(f.ltype) && WFType(f)
    requires forall j | 0 <= j < |items| :: ShapeValue(f, items[j])
    requires |EncPacked(f, items)| < TWO_64
    modifies s, s.buf
    ensures Wrote(old(s.State()), s.State(), Some(Delimited(EncPacked(f, items))), ok)
  {
    hide Wrote, EncPacked, EncVarint, ShapeValue, WFType;
    ghost var data := EncPacked(f, items);
    ghost var len := EncVarint(|data|);
    ghost var a := s.State();
    var size := PackedLength(f, items);
    ok := EncodeVarint(s, size);
    ghost var b := s.State();
    if !ok {
      WroteFailed(a, b, Some(len), Some(data));
      return;
    }
    WroteValid(a, b, Some(len), true);
    if s.sizing {
      ok := s.WriteSize(size);
      SizingWrote(b, s.State(), data);
    } else {
      ok := EncodePackedItems(s, f, items);
    }
    WroteThen(a, b, s.State(), Some(len), Some(data), ok);
  }

  /** The packed branch of encode_array. */
  method EncodePackedArray(s: OStream, f: Field, items: seq<Value>) returns (ok: bool)
    requires s.Valid() && Packable(f.ltype) && WFField(f)
    requires forall j | 0 <= j < |items| :: ShapeValue(f, items[j])
    requires |EncPacked(f, items)| < TWO_64
    modifies s, s.buf
    ensures Wrote(old(s.State()), s.State(), Some(Tag(WT_STRING, f.tag) + Delimited(EncPacked(f, items))), ok)
  {
    hide Wrote, EncPacked, Tag, Delimited, ShapeValue;
    ghost var tag, body := Tag(WT_STRING, f.tag), Delimited(EncPacked(f, items));
    ghost var a := s.State();
    ok := EncodeTag(s, WT_STRING, f.tag);
    ghost var b := s.State();
    if !ok {
      WroteFailed(a, b, Some(tag), Some(body));
      return;
    }
    WroteValid(a, b, Some(tag), true);
    ok := EncodePackedBody(s, f, items);
    WroteThen(a, b, s.State(), Some(tag), Some(body), ok);
  }

  /** A fresh sizing stream ends with the size of what was written to it. */
  lemma SizingCounts(c: OState, data: bytes, ok: bool)
    requires Wrote(OState(true, [], 0, 0, 0), c, Some(data), ok)
    ensures ok && c.written == |data|
  {
  }

  lemma SizingWrote(a: OState, b: OState, data: bytes)
    requires a.Valid() && a.sizing && b == a.(written := a.written + |data|)
    ensures Wrote(a, b, Some(data), true)
  {
  }

  // ---------- Fields and messages ----------

  /** The encoder of a field's data: PB_ENCODERS[PB_LTYPE(type)]. */
  method EncodeValue(s: OStream, f: Field, v: Value) returns (ok: bool)
    requires s.Valid() && WFField(f) && ShapeValue(f, v) && MaxValue(f) < TWO_64
    modifies s, s.buf
    ensures Wrote(old(s.State()), s.State(), EncValue(f, v), ok)
    decreases f, 0
  {
    hide Wrote, EncScalar, EncMessage;
    if Packable(f.ltype) {
      ok := EncodeScalar(s, f, v.i);
    } else if f.ltype.SubMessage? {
      ok := EncodeSubmessage(s, f.ptr.desc, v.slots);
    } else {
      ok := EncodeBlob(s, f, v);
    }
  }

  /** A tag and the data. */
  method EncodeRecord(s: OStream, f: Field, v: Value) returns (ok: bool)
    requires s.Valid() && WFField(f) && ShapeValue(f, v) && MaxValue(f) < TWO_64
    modifies s, s.buf
    ensures Wrote(old(s.State()), s.State(), EncRecord(f, v), ok)
    decreases f, 1
  {
    hide Wrote, EncValue, ShapeValue, Tag, MaxValue;
    ghost var tag := Some(Tag(WireType(f.ltype), f.tag));
    ghost var a := s.State();
    ok := EncodeTagForField(s, f);
    ghost var b := s.State();
    if !ok {
      WroteFailed(a, b, tag, EncValue(f, v));
      return;
    }
    WroteValid(a, b, tag, true);
    ok := EncodeValue(s, f, v);
    WroteThen(a, b, s.State(), tag, EncValue(f, v), ok);
  }

  lemma ItemsStep(f: Field, items: seq<Value>, i: nat)
    requires WFField(f) && forall j | 0 <= j < |items| :: ShapeValue(f, items[j])
    ensures i < |items| ==> EncItems(f, items[i..]) == Join(EncRecord(f, items[i]), EncItems(f, items[i + 1..]))
    ensures i == |items| ==> EncItems(f, items[i..]) == Some([])
  {
    hide EncRecord;
    if i < |items| {
      assert items[i..][0] == items[i] && items[i..][1..] == items[i + 1..];
    }
  }

  /** Joining is associative. */
  lemma JoinJoin(a: Option<bytes>, b: Option<bytes>, c: Option<bytes>)
    ensures Join(Join(a, b), c) == Join(a, Join(b, c))
    ensures Join(Some([]), a) == a == Join(a, Some([]))
  {
    if a.Some? {
      assert [] + a.value == a.value == a.value + [];
      if b.Some? && c.Some? {
        assert a.value + b.value + c.value == a.value + (b.value + c.value);
      }
    }
  }

  /** The unpacked branch of encode_array. */
  method EncodeItems(s: OStream, f: Field, items: seq<Value>) returns (ok: bool)
    requires s.Valid() && WFField(f) && (items != [] ==> MaxValue(f) < TWO_64)
    requires forall j | 0 <= j < |items| :: ShapeValue(f, items[j])
    modifies s, s.buf
    ensures Wrote(old(s.State()), s.State(), EncItems(f, items), ok)
    decreases f, 2
  {
    hide Wrote, EncRecord, EncItems, ShapeValue, WFField, Join, MaxValue;
    ghost var a := s.State();
    ghost var e := Some([]);
    WroteNothing(a);
    assert items[0..] == items;
    JoinJoin(EncItems(f, items), None, None);
    for i := 0 to |items|
      invariant s.Valid() && Wrote(a, s.State(), e, true)
      invariant Join(e, EncItems(f, items[i..])) == EncItems(f, items)
    {
      ghost var b := s.State();
      ghost var one, rest := EncRecord(f, items[i]), EncItems(f, items[i + 1..]);
      ItemsStep(f, items, i);
      JoinJoin(e, one, rest);
      ok := EncodeRecord(s, f, items[i]);
      WroteThen(a, b, s.State(), e, one, ok);
      if !ok {
        WroteFailed(a, s.State(), Join(e, one), rest);
        return;
      }
      e := Join(e, one);
      WroteValid(a, s.State(), e, true);
    }
    ItemsStep(f, items, |items|);
    JoinJoin(e, None, None);
    ok := true;
  }

  /** encode_array. */
  method EncodeArray(s: OStream, f: Field, items: seq<Value>, count: nat) returns (ok: bool)
    requires s.Valid() && WFField(f) && |items| == f.arraySize && forall j | 0 <= j < |items| :: ShapeValue(f, items[j])
    requires f.htype.Repeated? && MaxField(f) < TWO_64
    modifies s, s.buf
    ensures Wrote(old(s.State()), s.State(), EncArray(f, items, count), ok)
    decreases f, 3
  {
    hide Wrote, EncPacked, EncItems, ShapeValue, WFField, Tag, Delimited, MaxValue, MaxField;
    ghost var a := s.State();
    if count == 0 {
      WroteNothing(a);
      return true;
    }
    if count > f.arraySize {
      WroteRefused(a);
      return false;
    }
    ItemBound(f, items, count);
    if Packable(f.ltype) {
      ok := EncodePackedArray(s, f, items[..count]);
    } else {
      ok := EncodeItems(s, f, items[..count]);
    }
  }

  lemma WroteRefused(a: OState)
    requires a.Valid()
    ensures Wrote(a, a, None, false)
  {
  }

  lemma ItemBound(f: Field, items: seq<Value>, count: nat)
    requires WFField(f) && |items| == f.arraySize && forall j | 0 <= j < |items| :: ShapeValue(f, items[j])
    requires f.htype.Repeated? && MaxField(f) < TWO_64 && 0 < count <= f.arraySize
    ensures MaxValue(f) < TWO_64
    ensures Packable(f.ltype) ==> |EncPacked(f, items[..count])| < TWO_64
  {
    hide EncPacked, MaxValue, EncItems;
    TimesMonotone(1, f.arraySize, 10 + MaxValue(f));
    if Packable(f.ltype) {
      ArrayBound(f, items, count);
    }
  }

  /** encode_basic_field. */
  method EncodeField(s: OStream, f: Field, t: Slot) returns (ok: bool)
    requires s.Valid() && WFField(f) && ShapeSlot(f, t) && MaxField(f) < TWO_64
    modifies s, s.buf
    ensures Wrote(old(s.State()), s.State(), EncField(f, t), ok)
    decreases f, 4
  {
    hide Wrote, EncRecord, EncArray, ShapeValue, WFField, MaxValue, DefaultItem;
    ghost var a := s.State();
    WroteNothing(a);
    match f.htype {
      case Required => ok := EncodeRecord(s, f, t.v);
      case Optional =>
        var has;
        if f.sizeOffset != 0 {
          has := t.has;
        } else {
          var isDefault := CheckItem(f, t.v);
          has := !isDefault;
        }
        if has {
          ok := EncodeRecord(s, f, t.v);
        } else {
          ok := true;
        }
      case Repeated =>
        var count := if f.sizeOffset != 0 then t.count else f.arraySize;
        ok := EncodeArray(s, f, t.items, count);
      case OneOf =>
        if t.which == f.tag {
          ok := EncodeRecord(s, f, t.v);
        } else {
          ok := true;
        }
    }
  }

  lemma FromStep(d: Desc, m: seq<Slot>, k: nat)
    requires WF(d) && Shape(d, m) && k <= |d.fields|
    ensures SharedWhich(d.fields)
    ensures k == |d.fields| ==> EncFrom(d, m, k) == Some([])
    ensures k < |d.fields| ==>
              EncFrom(d, m, k) == Join(EncField(d.fields[k], SlotAt(d, m, k)), EncFrom(d, m, k + 1)) &&
              MaxField(d.fields[k]) <= MaxMessage(d)
  {
    hide EncField, MaxField;
    if k < |d.fields| {
      EntryBound(d, 0, k);
    }
  }

  /** pb_encode. */
  method Encode(s: OStream, d: Desc, m: seq<Slot>) returns (ok: bool)
    requires s.Valid() && WF(d) && Shape(d, m) && MaxMessage(d) < TWO_64
    modifies s, s.buf
    ensures Wrote(old(s.State()), s.State(), EncMessage(d, m), ok)
    decreases d, 0
  {
    hide Wrote, EncField, EncFrom, Join, WF, Shape, WFField, ShapeSlot, MaxField, MaxMessage, FieldIter.Valid, SharedWhich, SlotAt;
    ghost var a := s.State();
    ghost var e := Some([]);
    WroteNothing(a);
    FromStep(d, m, 0);
    JoinJoin(EncFrom(d, m, 0), None, None);
    var iter := new FieldIter(d.fields, 0);
    var more := iter.Begin();
    ghost var k := 0;
    while more
      invariant iter.Valid() && iter.fields == d.fields && fresh(iter)
      invariant k <= |d.fields| && (more <==> k < |d.fields|) && (more ==> iter.pos == k)
      invariant s.Valid() && Wrote(a, s.State(), e, true)
      invariant Join(e, EncFrom(d, m, k)) == EncMessage(d, m)
      decreases |d.fields| - k
    {
      FromStep(d, m, k);
      ghost var b := s.State();
      ghost var one, rest := EncField(d.fields[k], SlotAt(d, m, k)), EncFrom(d, m, k + 1);
      JoinJoin(e, one, rest);
      ok := EncodeField(s, d.fields[iter.pos], SlotAt(d, m, iter.pos));
      WroteThen(a, b, s.State(), e, one, ok);
      if !ok {
        WroteFailed(a, s.State(), Join(e, one), rest);
        return;
      }
      e := Join(e, one);
      WroteValid(a, s.State(), e, true);
      k := k + 1;
      more := iter.Next();
    }
    FromStep(d, m, k);
    JoinJoin(e, None, None);
    ok := true;
  }

  /** pb_encode_submessage: the size by a sizing pass, then the message in a window of exactly that size. */
  method EncodeSubmessage(s: OStream, d: Desc, m: seq<Slot>) returns (ok: bool)
    requires s.Valid() && WF(d) && Shape(d, m) && MaxMessage(d) < TWO_64
    modifies s, s.buf
    ensures Wrote(old(s.State()), s.State(), Framed(EncMessage(d, m)), ok)
    decreases d, 1
  {
    hide Wrote, EncMessage, MaxMessage, WF, Shape, EncVarint;
    ghost var a := s.State();
    var sizing := new OStream.Sizing();
    ok := Encode(sizing, d, m);
    SizingResult(sizing.State(), EncMessage(d, m), ok);
    assert s.State() == a;
    if !ok {
      WroteRefused(a);
      return;
    }
    ghost var data := EncMessage(d, m).value;
    ghost var len := EncVarint(|data|);
    var size := sizing.bytesWritten;
    MessageBound(d, m);
    ok := EncodeVarint(s, size);
    ghost var b := s.State();
    if !ok {
      WroteFailed(a, b, Some(len), Some(data));
      return;
    }
    WroteValid(a, b, Some(len), true);
    if s.sizing {
      ok := s.WriteSize(size);
      SizingWrote(b, s.State(), data);
    } else {
      ok := EncodeWindow(s, d, m, size);
    }
    WroteThen(a, b, s.State(), Some(len), Some(data), ok);
  }

  /** A fresh sizing stream tells whether the data can be encoded, and its size. */
  lemma SizingResult(c: OState, e: Option<bytes>, ok: bool)
    requires Wrote(OState(true, [], 0, 0, 0), c, e, ok)
    ensures (ok <==> e.Some?) && (ok ==> c.written == |e.value|)
  {
  }

  /**
    The writing part of pb_encode_submessage. The substream has its own count and a limit of
    exactly the size found before, and the size test at the end never fails.
   */
  method EncodeWindow(s: OStream, d: Desc, m: seq<Slot>, size: nat) returns (ok: bool)
    requires s.Valid() && !s.sizing && WF(d) && Shape(d, m) && MaxMessage(d) < TWO_64
    requires EncMessage(d, m).Some? && size == |EncMessage(d, m).value|
    modifies s, s.buf
    ensures Wrote(old(s.State()), s.State(), EncMessage(d, m), ok)
    decreases d, 1, 0
  {
    hide EncMessage, MaxMessage, WF, Shape;
    if s.bytesWritten + size > s.maxSize {
      return false;
    }
    var sub := new OStream.FromBuffer(s.buf, s.pos, size);
    ghost var a := sub.State();
    var status := Encode(sub, d, m);
    assert status && sub.bytesWritten == size;
    s.bytesWritten := s.bytesWritten + sub.bytesWritten;
    s.pos := sub.pos;
    ok := status && sub.bytesWritten == size;
  }

  // ---------- The public entry points ----------

  /** pb_encode_delimited. */
  method EncodeDelimited(s: OStream, d: Desc, m: seq<Slot>) returns (ok: bool)
    requires s.Valid() && WF(d) && Shape(d, m) && MaxMessage(d) < TWO_64
    modifies s, s.buf
    ensures Wrote(old(s.State()), s.State(), Framed(EncMessage(d, m)), ok)
  {
    ok := EncodeSubmessage(s, d, m);
  }

  /** pb_encode_nullterminated. */
  method EncodeNullTerminated(s: OStream, d: Desc, m: seq<Slot>) returns (ok: bool)
    requires s.Valid() && WF(d) && Shape(d, m) && MaxMessage(d) < TWO_64
    modifies s, s.buf
    ensures Wrote(old(s.State()), s.State(), Join(EncMessage(d, m), Some([0])), ok)
  {
    hide Wrote, EncMessage, MaxMessage, WF, Shape;
    ghost var a := s.State();
    ok := Encode(s, d, m);
    ghost var b := s.State();
    if !ok {
      WroteFailed(a, b, EncMessage(d, m), Some([0]));
      return;
    }
    WroteValid(a, b, EncMessage(d, m), true);
    ok := s.Write([0]);
    WroteThen(a, b, s.State(), EncMessage(d, m), Some([0]), ok);
  }

  /** pb_get_encoded_size: exact, and it fails exactly when the message cannot be encoded. */
  method GetEncodedSize(d: Desc, m: seq<Slot>) returns (ok: bool, size: nat)
    requires WF(d) && Shape(d, m) && MaxMessage(d) < TWO_64
    ensures ok <==> EncMessage(d, m).Some?
    ensures ok ==> size == |EncMessage(d, m).value| <= MaxMessage(d)
  {
    hide Wrote, EncMessage, MaxMessage, WF, Shape;
    var stream := new OStream.Sizing();
    ok := Encode(stream, d, m);
    SizingResult(stream.State(), EncMessage(d, m), ok);
    size := stream.bytesWritten;
    if ok {
      MessageBound(d, m);
    }
  }

  /**
    The sizing pass predicts the writing pass: after pb_get_encoded_size, pb_encode succeeds exactly
    when that did and the size fits, and it then appends exactly that many bytes.
   */
  method SizeAndEncode(s: OStream, d: Desc, m: seq<Slot>) returns (sized: bool, size: nat, ok: bool)
    requires s.Valid() && !s.sizing && WF(d) && Shape(d, m) && MaxMessage(d) < TWO_64
    modifies s, s.buf
    ensures s.Valid() && Within(old(s.State()), s.State())
    ensures sized <==> EncMessage(d, m).Some?
    ensures ok <==> sized && size <= old(s.maxSize - s.bytesWritten)
    ensures ok ==> s.bytesWritten == old(s.bytesWritten) + size && s.pos == old(s.pos) + size
    ensures ok ==> s.buf[old(s.pos)..s.pos] == EncMessage(d, m).value
    ensures ok ==> s.buf[..old(s.pos)] == old(s.buf[..s.pos]) && s.buf[s.pos..] == old(s.buf[..])[s.pos..]
  {
    hide EncMessage, MaxMessage, WF, Shape;
    sized, size := GetEncodedSize(d, m);
    ghost var a := s.State();
    ok := Encode(s, d, m);
    if ok {
      Appended(a, s.State(), EncMessage(d, m).value);
    }
  }

  lemma Appended(a: OState, b: OState, e: bytes)
    requires Wrote(a, b, Some(e), true) && !a.sizing
    ensures b.mem[a.pos..b.pos] == e && b.mem[..a.pos] == a.mem[..a.pos] && b.mem[b.pos..] == a.mem[b.pos..]
  {
  }
}
