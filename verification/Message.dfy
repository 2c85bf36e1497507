/**
  Message descriptors, the struct they describe as typed slots, and the default state.

  A descriptor is the table of pb_field_t entries without its terminator. Its struct is
  one slot for each entry; the members of a union share the slot of the first of them.
 */
module Message {
  import opened Basics
  import opened Scalars

  datatype HType = Required | Optional | Repeated | OneOf

  datatype LType =
    | Bool
    | VarInt
    | UVarInt
    | SVarInt
    | Fixed32
    | Fixed64
    | Bytes
    | String
    | SubMessage
    | FixedLengthBytes

  /** The ptr entry: a submessage's own table, a default value, or NULL. */
  datatype Ptr = NullPtr | DefaultPtr(value: Value) | FieldsPtr(desc: Desc)

  datatype Field = Field(tag: nat, htype: HType, ltype: LType,
                         dataOffset: nat, sizeOffset: int, dataSize: nat, arraySize: nat, ptr: Ptr)

  datatype Desc = Desc(fields: seq<Field>)

  /**
    The content of one data item. Int is any number (a bool as its raw byte, a float as its bits).
    Blob is the used part of a bytes array, the whole buffer of a string, or a fixed-length array.
   */
  datatype Value = Int(i: int) | Blob(b: bytes) | Sub(slots: seq<Slot>)

  /** A field with its has_, _count or which_ variable. Rep holds all array_size items. */
  datatype Slot =
    | Single(v: Value)
    | Opt(has: bool, v: Value)
    | Rep(count: nat, items: seq<Value>)
    | Union(which: nat, v: Value)

  /** The configuration with PB_FIELD_32BIT, which the generated files of the application ask for. */
  const PB_SIZE_MAX: nat := 0xFFFF_FFFF

  /** offsetof(pb_bytes_array_t, bytes). */
  const BYTES_HEADER: nat := 4

  const PB_MAX_REQUIRED_FIELDS: nat := 64

  predicate Packable(t: LType) {
    t.Bool? || t.VarInt? || t.UVarInt? || t.SVarInt? || t.Fixed32? || t.Fixed64?
  }

  /** A repeated field without a count variable: all array_size items are always in use. */
  predicate FixedCount(f: Field) {
    f.htype.Repeated? && f.sizeOffset == 0
  }

  /** A proto3 field: optional, but without a has_ variable. */
  predicate Singular(f: Field) {
    f.htype.Optional? && f.sizeOffset == 0
  }

  // ---------- Where a field is stored ----------

  /** Entry i continues the union that entry i - 1 is in. */
  predicate InUnionWithPrevious(fs: seq<Field>, i: nat)
    requires i < |fs|
  {
    i > 0 && fs[i].htype.OneOf? && fs[i - 1].htype.OneOf? && fs[i].dataOffset == PB_SIZE_MAX
  }

  /** The slot of entry i: its own, or that of the first member of its union. */
  function SlotOf(fs: seq<Field>, i: nat): (s: nat)
    requires i < |fs|
    ensures s <= i
    ensures s != i ==> fs[i].htype.OneOf? && fs[s].htype.OneOf?
  {
    if InUnionWithPrevious(fs, i) then SlotOf(fs, i - 1) else i
  }

  lemma {:induction false} SlotOfSlot(fs: seq<Field>, i: nat)
    requires i < |fs|
    ensures SlotOf(fs, SlotOf(fs, i)) == SlotOf(fs, i)
  {
    if InUnionWithPrevious(fs, i) {
      SlotOfSlot(fs, i - 1);
    }
  }

  // ---------- Well-formed tables and structs ----------

  /** Union members share their which_ variable. */
  predicate SharedWhich(fs: seq<Field>) {
    forall i | 0 <= i < |fs| && InUnionWithPrevious(fs, i) :: fs[i].sizeOffset == fs[i - 1].sizeOffset
  }

  predicate WF(d: Desc) {
    SharedWhich(d.fields) &&
    (forall i, j | 0 <= i < j < |d.fields| :: d.fields[i].tag != d.fields[j].tag) &&
    (forall i | 0 <= i < |d.fields| :: WFField(d.fields[i]))
  }

  predicate WFField(f: Field) {
    0 < f.tag < TWO_29 &&
    (f.htype.Required? ==> f.sizeOffset == 0) &&
    (f.htype.OneOf? ==> f.sizeOffset != 0) &&
    WFType(f) &&
    match f.ptr
    case NullPtr => !f.ltype.SubMessage?
    case DefaultPtr(v) => !f.ltype.SubMessage? && !Singular(f) && ShapeValue(f, v)
    case FieldsPtr(d) => f.ltype.SubMessage? && WF(d)
  }

  predicate WFType(f: Field) {
    match f.ltype
    case Bool => f.dataSize == 1
    case VarInt | UVarInt | SVarInt => f.dataSize in {1, 2, 4, 8}
    case Fixed32 => f.dataSize == 4
    case Fixed64 => f.dataSize == 8
    case Bytes => f.dataSize >= BYTES_HEADER
    case String => f.dataSize > 0
    case _ => true
  }

  /** What a data item of f can hold in memory. */
  predicate ShapeValue(f: Field, v: Value)
    decreases f, 0
  {
    match f.ltype
    case Bool => v.Int? && UnsignedFits(1, v.i)
    case VarInt | SVarInt => v.Int? && SignedFits(f.dataSize, v.i)
    case UVarInt => v.Int? && UnsignedFits(f.dataSize, v.i)
    case Fixed32 => v.Int? && UnsignedFits(4, v.i)
    case Fixed64 => v.Int? && UnsignedFits(8, v.i)
    case Bytes => v.Blob?
    case String | FixedLengthBytes => v.Blob? && |v.b| == f.dataSize
    case SubMessage => v.Sub? && f.ptr.FieldsPtr? && Shape(f.ptr.desc, v.slots)
  }

  predicate ShapeSlot(f: Field, s: Slot)
    decreases f, 1
  {
    match f.htype
    case Required => s.Single? && ShapeValue(f, s.v)
    case Optional => if Singular(f) then s.Single? && ShapeValue(f, s.v) else s.Opt? && ShapeValue(f, s.v)
    case Repeated => s.Rep? && |s.items| == f.arraySize && forall j | 0 <= j < |s.items| :: ShapeValue(f, s.items[j])
    case OneOf => s.Union? && (s.which == f.tag ==> ShapeValue(f, s.v))
  }

  /** The slots m are a struct of the type that d describes. */
  predicate Shape(d: Desc, m: seq<Slot>) {
    |m| == |d.fields| &&
    forall i | 0 <= i < |d.fields| :: ShapeSlot(d.fields[i], m[SlotOf(d.fields, i)])
  }

  /** Writing a fitting value to a field, and the field's tag to its union, keeps the struct typed. */
  lemma ShapeUpdate(d: Desc, m: seq<Slot>, i: nat, s: Slot)
    requires WF(d) && Shape(d, m) && i < |d.fields|
    requires ShapeSlot(d.fields[i], s)
    requires d.fields[i].htype.OneOf? ==> s.Union? && s.which in {0, d.fields[i].tag}
    ensures Shape(d, m[SlotOf(d.fields, i) := s])
  {
    var m' := m[SlotOf(d.fields, i) := s];
    forall j | 0 <= j < |d.fields| ensures ShapeSlot(d.fields[j], m'[SlotOf(d.fields, j)]) {
      assert WFField(d.fields[j]);
      if SlotOf(d.fields, j) == SlotOf(d.fields, i) && j != i {
        assert d.fields[i].tag != d.fields[j].tag;
        assert d.fields[i].htype.OneOf? && d.fields[j].htype.OneOf?;
      }
    }
  }

  // ---------- Zeroed and default structs ----------

  function Zeros(n: nat): (z: bytes)
    ensures |z| == n && forall j | 0 <= j < n :: z[j] == 0
  {
    if n == 0 then [] else [0] + Zeros(n - 1)
  }

  function Copies(n: nat, v: Value): (c: seq<Value>)
    ensures |c| == n && forall j | 0 <= j < n :: c[j] == v
  {
    if n == 0 then [] else [v] + Copies(n - 1, v)
  }

  /** A data item after memset(0). */
  function ZeroValue(f: Field): (v: Value)
    requires WFField(f)
    ensures ShapeValue(f, v)
    decreases f, 0
  {
    match f.ltype
    case Bytes => Blob([])
    case String | FixedLengthBytes => Blob(Zeros(f.dataSize))
    case SubMessage => Sub(ZeroMessage(f.ptr.desc))
    case _ => Int(0)
  }

  function ZeroSlot(f: Field): (s: Slot)
    requires WFField(f)
    ensures ShapeSlot(f, s)
    ensures f.htype.OneOf? ==> s == Union(0, Int(0))
    decreases f, 1
  {
    match f.htype
    case Required => Single(ZeroValue(f))
    case Optional => if Singular(f) then Single(ZeroValue(f)) else Opt(false, ZeroValue(f))
    case Repeated => Rep(0, Copies(f.arraySize, ZeroValue(f)))
    case OneOf => Union(0, Int(0))
  }

  function ZeroMessage(d: Desc): (m: seq<Slot>)
    requires WF(d)
    ensures Shape(d, m)
  {
    var m := seq(|d.fields|, i requires 0 <= i < |d.fields| => ZeroSlot(d.fields[i]));
    assert forall i | 0 <= i < |d.fields| :: ShapeSlot(d.fields[i], m[SlotOf(d.fields, i)]) by {
      forall i | 0 <= i < |d.fields| ensures ShapeSlot(d.fields[i], m[SlotOf(d.fields, i)]) {
        assert WFField(d.fields[i]);
        assert WFField(d.fields[SlotOf(d.fields, i)]);
      }
    }
    m
  }

  /** pb_field_set_to_default on a data item. */
  function DefaultValue(f: Field, v: Value): (r: Value)
    requires WFField(f) && ShapeValue(f, v)
    ensures ShapeValue(f, r)
    decreases f, 0
  {
    match f.ptr
    case FieldsPtr(d) => Sub(DefaultMessage(d, v.slots))
    case DefaultPtr(x) => x
    case NullPtr => ZeroValue(f)
  }

  /** pb_field_set_to_default; array contents and union contents stay. */
  function DefaultSlot(f: Field, s: Slot): (r: Slot)
    requires WFField(f) && ShapeSlot(f, s)
    ensures ShapeSlot(f, r)
    ensures f.htype.OneOf? ==> r == Union(0, s.v)
    decreases f, 1
  {
    match s
    case Single(v) => Single(DefaultValue(f, v))
    case Opt(_, v) => Opt(false, DefaultValue(f, v))
    case Rep(_, items) => if FixedCount(f) then s else Rep(0, items)
    case Union(_, v) => Union(0, v)
  }

  /** pb_message_set_to_defaults. */
  function DefaultMessage(d: Desc, m: seq<Slot>): (r: seq<Slot>)
    requires WF(d) && Shape(d, m)
    ensures Shape(d, r)
  {
    var r := seq(|d.fields|, i requires 0 <= i < |d.fields| =>
      assert WFField(d.fields[i]);
      if SlotOf(d.fields, i) == i then DefaultSlot(d.fields[i], m[i]) else m[i]);
    assert forall i | 0 <= i < |d.fields| :: ShapeSlot(d.fields[i], r[SlotOf(d.fields, i)]) by {
      forall i | 0 <= i < |d.fields| ensures ShapeSlot(d.fields[i], r[SlotOf(d.fields, i)]) {
        SlotOfSlot(d.fields, i);
        assert WFField(d.fields[i]);
        assert WFField(d.fields[SlotOf(d.fields, i)]);
        assert ShapeSlot(d.fields[i], m[SlotOf(d.fields, i)]);
      }
    }
    r
  }
}
