/** The bytes a message is encoded to, or None where the encoder reports an error. */
module EncodeSpec {
  import opened Basics
  import opened Varint
  import opened Scalars
  import opened Message

  const WT_VARINT: nat := 0
  const WT_64BIT: nat := 1
  const WT_STRING: nat := 2
  const WT_32BIT: nat := 5

  function WireType(t: LType): (wt: nat)
    ensures wt < 8
    ensures Packable(t) <==> wt != WT_STRING
  {
    match t
    case Fixed32 => WT_32BIT
    case Fixed64 => WT_64BIT
    case Bytes | String | SubMessage | FixedLengthBytes => WT_STRING
    case _ => WT_VARINT
  }

  function Tag(wt: nat, tag: nat): bytes {
    EncVarint(8 * tag + wt)
  }

  function Delimited(b: bytes): bytes {
    EncVarint(|b|) + b
  }

  /** The characters of a string buffer before its first NUL, or all of them. */
  function CStr(b: bytes): (c: bytes)
    ensures |c| <= |b| && c == b[..|c|]
    ensures forall i | 0 <= i < |c| :: c[i] != 0
    ensures |c| < |b| ==> b[|c|] == 0
  {
    if b == [] || b[0] == 0 then [] else [b[0]] + CStr(b[1..])
  }

  // ---------- proto3 default test ----------

  /** pb_check_proto3_default_value. */
  predicate Proto3Default(f: Field, s: Slot)
    requires WFField(f) && ShapeSlot(f, s)
    decreases f, 1
  {
    match s
    case Rep(count, _) => !FixedCount(f) && count == 0
    case Union(which, _) => which == 0
    case Opt(has, _) => !has
    case Single(v) => Singular(f) && DefaultItem(f, v)
  }

  predicate DefaultItem(f: Field, v: Value)
    requires WFField(f) && ShapeValue(f, v)
    decreases f, 0
  {
    match f.ltype
    case Bytes => v.b == []
    case String => v.b[0] == 0
    case FixedLengthBytes => f.dataSize == 0
    case SubMessage => AllDefault(f.ptr.desc, v.slots)
    case _ => v.i == 0
  }

  predicate AllDefault(d: Desc, m: seq<Slot>)
    requires WF(d) && Shape(d, m)
  {
    forall i | 0 <= i < |d.fields| ::
      WFField(d.fields[i]) && ShapeSlot(d.fields[i], m[SlotOf(d.fields, i)]) &&
      Proto3Default(d.fields[i], m[SlotOf(d.fields, i)])
  }

  // ---------- Encoding ----------

  /** The payload of an integer field, packed or not. */
  function EncScalar(f: Field, i: int): bytes
    requires Packable(f.ltype) && ShapeValue(f, Int(i))
  {
    match f.ltype
    case Bool => EncVarint(if i != 0 then 1 else 0)
    case VarInt => EncVarint(Unsigned64(i))
    case UVarInt => EncVarint(i)
    case SVarInt => EncVarint(ZigZag(i))
    case Fixed32 => Little(i, 4)
    case Fixed64 => Little(i, 8)
  }

  function EncValue(f: Field, v: Value): Option<bytes>
    requires WFField(f) && ShapeValue(f, v)
    decreases f, 0
  {
    match f.ltype
    case Bytes => if |v.b| + BYTES_HEADER > f.dataSize then None else Some(Delimited(v.b))
    case String => Some(Delimited(CStr(v.b)))
    case FixedLengthBytes => Some(Delimited(v.b))
    case SubMessage => Framed(EncMessage(f.ptr.desc, v.slots))
    case _ => Some(EncScalar(f, v.i))
  }

  function Framed(e: Option<bytes>): Option<bytes> {
    if e.Some? then Some(Delimited(e.value)) else None
  }

  function Join(a: Option<bytes>, b: Option<bytes>): Option<bytes> {
    if a.Some? && b.Some? then Some(a.value + b.value) else None
  }

  /** One record: the field's tag, then its payload. */
  function EncRecord(f: Field, v: Value): Option<bytes>
    requires WFField(f) && ShapeValue(f, v)
    decreases f, 1
  {
    Join(Some(Tag(WireType(f.ltype), f.tag)), EncValue(f, v))
  }

  /** The first n items of an array, one record each. */
  function EncItems(f: Field, items: seq<Value>): Option<bytes>
    requires WFField(f) && forall j | 0 <= j < |items| :: ShapeValue(f, items[j])
    decreases f, 2, |items|
  {
    if items == [] then Some([]) else Join(EncRecord(f, items[0]), EncItems(f, items[1..]))
  }

  /** The payloads of integers, end to end. */
  function EncPacked(f: Field, items: seq<Value>): bytes
    requires Packable(f.ltype) && forall j | 0 <= j < |items| :: ShapeValue(f, items[j])
  {
    if items == [] then []
    else
      assert ShapeValue(f, items[0]);
      EncScalar(f, items[0].i) + EncPacked(f, items[1..])
  }

  /** Arrays of integers are packed into one record, others get a record for each item. */
  function EncArray(f: Field, items: seq<Value>, count: nat): Option<bytes>
    requires WFField(f) && |items| == f.arraySize && forall j | 0 <= j < |items| :: ShapeValue(f, items[j])
    decreases f, 3
  {
    if count == 0 then Some([])
    else if count > f.arraySize then None
    else if Packable(f.ltype) then Some(Tag(WT_STRING, f.tag) + Delimited(EncPacked(f, items[..count])))
    else EncItems(f, items[..count])
  }

  /** How many items of an array field are encoded. */
  function ItemCount(f: Field, s: Slot): nat
    requires s.Rep?
  {
    if FixedCount(f) then f.arraySize else s.count
  }

  function EncField(f: Field, s: Slot): Option<bytes>
    requires WFField(f) && ShapeSlot(f, s)
    decreases f, 4
  {
    match s
    case Single(v) => if Singular(f) && DefaultItem(f, v) then Some([]) else EncRecord(f, v)
    case Opt(has, v) => if has then EncRecord(f, v) else Some([])
    case Rep(_, items) => EncArray(f, items, ItemCount(f, s))
    case Union(which, v) => if which == f.tag then EncRecord(f, v) else Some([])
  }

  /** The fields from the k-th on. */
  function EncFrom(d: Desc, m: seq<Slot>, k: nat): Option<bytes>
    requires WF(d) && Shape(d, m) && k <= |d.fields|
    decreases d, 0, |d.fields| - k
  {
    if k == |d.fields| then Some([])
    else
      assert WFField(d.fields[k]) && ShapeSlot(d.fields[k], m[SlotOf(d.fields, k)]);
      Join(EncField(d.fields[k], m[SlotOf(d.fields, k)]), EncFrom(d, m, k + 1))
  }

  function EncMessage(d: Desc, m: seq<Slot>): Option<bytes>
    requires WF(d) && Shape(d, m)
    decreases d, 1
  {
    EncFrom(d, m, 0)
  }
}
