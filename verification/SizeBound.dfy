/** The largest encoding a descriptor allows. */
module SizeBound {
  import opened Basics
  import opened Varint
  import opened Scalars
  import opened Message
  import opened EncodeSpec
  import opened DecodeSpec

  function MaxValue(f: Field): nat
    requires WFField(f)
    decreases f, 0
  {
    match f.ltype
    case Bytes | String | FixedLengthBytes => 10 + f.dataSize
    case SubMessage => 10 + MaxMessage(f.ptr.desc)
    case _ => 10
  }

  function MaxField(f: Field): nat
    requires WFField(f)
    decreases f, 1
  {
    if f.htype.Repeated? then 20 + f.arraySize * (10 + MaxValue(f)) else 10 + MaxValue(f)
  }

  function MaxFrom(d: Desc, k: nat): nat
    requires WF(d) && k <= |d.fields|
    decreases d, 0, |d.fields| - k
  {
    if k == |d.fields| then 0 else MaxField(d.fields[k]) + MaxFrom(d, k + 1)
  }

  function MaxMessage(d: Desc): nat
    requires WF(d)
    decreases d, 1
  {
    MaxFrom(d, 0)
  }

  lemma EntryBound(d: Desc, k: nat, j: nat)
    requires WF(d) && k <= j < |d.fields|
    ensures WFField(d.fields[j]) && MaxField(d.fields[j]) <= MaxFrom(d, k)
    decreases j - k
  {
    hide MaxField;
    assert WFField(d.fields[k]);
    if k < j {
      EntryBound(d, k + 1, j);
    }
  }

  lemma TagBound(wt: nat, tag: nat)
    requires tag < TWO_29 && wt < 8
    ensures |Tag(wt, tag)| <= 10
  {
    hide EncVarint;
    EncVarintAtMostTen(8 * tag + wt);
  }

  lemma ScalarBound(f: Field, i: int)
    requires Packable(f.ltype) && ShapeValue(f, Int(i)) && WFType(f)
    ensures |EncScalar(f, i)| <= 10
  {
    hide EncVarint, Little;
    match f.ltype
    case Bool => EncVarintAtMostTen(if i != 0 then 1 else 0);
    case VarInt =>
      EncVarintAtMostTen(Unsigned64(i));
    case UVarInt =>
      UnsignedFitsWord(f.dataSize, i);
      EncVarintAtMostTen(i);
    case SVarInt => EncVarintAtMostTen(ZigZag(i));
    case _ =>
  }

  lemma {:induction false} ValueBound(f: Field, v: Value)
    requires WFField(f) && ShapeValue(f, v) && MaxValue(f) < TWO_64 && EncValue(f, v).Some?
    ensures |EncValue(f, v).value| <= MaxValue(f)
    decreases f, 0
  {
    hide EncVarint, EncScalar, CStr;
    if Packable(f.ltype) {
      ScalarBound(f, v.i);
    } else if f.ltype.SubMessage? {
      MessageBound(f.ptr.desc, v.slots);
      EncVarintAtMostTen(|EncMessage(f.ptr.desc, v.slots).value|);
    } else {
      EncVarintAtMostTen(if f.ltype.String? then |CStr(v.b)| else |v.b|);
    }
  }

  lemma {:induction false} RecordBound(f: Field, v: Value)
    requires WFField(f) && ShapeValue(f, v) && MaxValue(f) < TWO_64 && EncRecord(f, v).Some?
    ensures |EncRecord(f, v).value| <= 10 + MaxValue(f)
    decreases f, 1
  {
    hide EncValue, MaxValue, Tag;
    ValueBound(f, v);
    TagBound(WireType(f.ltype), f.tag);
  }

  lemma {:induction false} ItemsBound(f: Field, items: seq<Value>)
    requires WFField(f) && forall j | 0 <= j < |items| :: ShapeValue(f, items[j])
    requires MaxValue(f) < TWO_64 && EncItems(f, items).Some?
    ensures |EncItems(f, items).value| <= |items| * (10 + MaxValue(f))
    decreases f, 2, |items|
  {
    hide EncRecord, MaxValue;
    if items != [] {
      RecordBound(f, items[0]);
      ItemsBound(f, items[1..]);
      var n, p := |items| - 1, 10 + MaxValue(f);
      assert (n + 1) * p == n * p + p;
    }
  }

  lemma {:induction false} PackedBound(f: Field, items: seq<Value>)
    requires WFField(f) && Packable(f.ltype) && forall j | 0 <= j < |items| :: ShapeValue(f, items[j])
    ensures |EncPacked(f, items)| <= |items| * 10
  {
    hide EncScalar;
    if items != [] {
      assert ShapeValue(f, items[0]);
      ScalarBound(f, items[0].i);
      PackedBound(f, items[1..]);
    }
  }

  lemma TimesMonotone(n: nat, m: nat, p: nat)
    requires n <= m
    ensures n * p <= m * p
  {
  }

  lemma {:induction false} ArrayBound(f: Field, items: seq<Value>, count: nat)
    requires WFField(f) && |items| == f.arraySize && forall j | 0 <= j < |items| :: ShapeValue(f, items[j])
    requires f.htype.Repeated? && MaxField(f) < TWO_64 && EncArray(f, items, count).Some?
    ensures |EncArray(f, items, count).value| <= MaxField(f)
    ensures count <= f.arraySize && Packable(f.ltype) ==> |EncPacked(f, items[..count])| < TWO_64
    ensures f.arraySize > 0 ==> MaxValue(f) < TWO_64
    decreases f, 3
  {
    hide EncItems, EncPacked, MaxValue, Tag, EncVarint;
    var p := 10 + MaxValue(f);
    if f.arraySize > 0 {
      TimesMonotone(1, f.arraySize, p);
    }
    if count == 0 {
      EmptyPacked(f, items[..count]);
    } else {
      TimesMonotone(count, f.arraySize, p);
      if Packable(f.ltype) {
        PackedBound(f, items[..count]);
        assert MaxValue(f) == 10 by { PackableMax(f); }
        TagBound(WT_STRING, f.tag);
        EncVarintAtMostTen(|EncPacked(f, items[..count])|);
      } else {
        ItemsBound(f, items[..count]);
      }
    }
  }

  lemma EmptyPacked(f: Field, items: seq<Value>)
    requires items == []
    ensures Packable(f.ltype) ==> EncPacked(f, items) == []
  {
  }

  lemma PackableMax(f: Field)
    requires WFField(f) && Packable(f.ltype)
    ensures MaxValue(f) == 10
  {
  }

  lemma {:induction false} FieldBound(f: Field, s: Slot)
    requires WFField(f) && ShapeSlot(f, s) && MaxField(f) < TWO_64 && EncField(f, s).Some?
    ensures |EncField(f, s).value| <= MaxField(f)
    decreases f, 4
  {
    hide EncRecord, EncArray, MaxValue, DefaultItem;
    if s.Rep? {
      ArrayBound(f, s.items, ItemCount(f, s));
    } else if EncField(f, s).value != [] {
      RecordBound(f, s.v);
    }
  }

  lemma {:induction false} FromBound(d: Desc, m: seq<Slot>, k: nat)
    requires WF(d) && Shape(d, m) && k <= |d.fields| && MaxFrom(d, k) < TWO_64 && EncFrom(d, m, k).Some?
    ensures |EncFrom(d, m, k).value| <= MaxFrom(d, k)
    decreases d, 0, |d.fields| - k
  {
    hide EncField, MaxField;
    if k < |d.fields| {
      FieldBound(d.fields[k], SlotAt(d, m, k));
      FromBound(d, m, k + 1);
    }
  }

  /** No message encodes to more than its descriptor's bound. */
  lemma {:induction false} MessageBound(d: Desc, m: seq<Slot>)
    requires WF(d) && Shape(d, m) && MaxMessage(d) < TWO_64 && EncMessage(d, m).Some?
    ensures |EncMessage(d, m).value| <= MaxMessage(d)
    decreases d, 1
  {
    FromBound(d, m, 0);
  }
}
