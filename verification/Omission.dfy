/** Which proto3 fields are left out of an encoding: exactly those that hold nothing but zeros. */
module Omission {
  import opened Basics
  import opened Varint
  import opened Message
  import opened EncodeSpec
  import opened DecodeSpec
  import opened Logical
  import opened RoundTrip

  lemma RecordNotEmpty(f: Field, v: Value)
    requires WFField(f) && ShapeValue(f, v)
    ensures EncRecord(f, v) != Some([])
  {
    hide EncValue, EncVarint, ShapeValue;
    EncVarintSpells(8 * f.tag + WireType(f.ltype));
  }

  /**
    A singular field that is no submessage is left out exactly when its value is that of a zeroed struct;
    fixed-length bytes only when their length is zero.
   */
  lemma OmittedExactly(f: Field, v: Value)
    requires WFField(f) && Singular(f) && ShapeValue(f, v) && !f.ltype.SubMessage?
    ensures EncField(f, Single(v)) == Some([]) <==>
            SameValue(f, v, ZeroValue(f)) && (f.ltype.FixedLengthBytes? ==> f.dataSize == 0)
  {
    hide EncRecord, Zeros;
    RecordNotEmpty(f, v);
  }

  /** What a submessage must hold to be left out. */
  predicate BlankSlot(f: Field, s: Slot)
    requires WFField(f) && ShapeSlot(f, s)
  {
    match f.htype
    case Required => false
    case Optional => if Singular(f) then EncField(f, s) == Some([]) else !s.has
    case Repeated => f.sizeOffset != 0 && s.count == 0
    case OneOf => s.which == 0
  }

  predicate Blank(d: Desc, m: seq<Slot>)
    requires WF(d) && Shape(d, m)
  {
    forall i | 0 <= i < |d.fields| :: BlankSlot(d.fields[i], SlotAt(d, m, i))
  }

  lemma DefaultIsOmitted(f: Field, v: Value)
    requires WFField(f) && Singular(f) && ShapeValue(f, v)
    ensures DefaultItem(f, v) <==> EncField(f, Single(v)) == Some([])
  {
    hide EncRecord, DefaultItem;
    RecordNotEmpty(f, v);
  }

  /** A singular submessage is left out exactly when it has no field that is present. */
  lemma SubmessageOmitted(f: Field, v: Value)
    requires WFField(f) && Singular(f) && ShapeValue(f, v) && f.ltype.SubMessage?
    ensures EncField(f, Single(v)) == Some([]) <==> Blank(f.ptr.desc, v.slots)
  {
    hide EncField;
    var d := f.ptr.desc;
    DefaultIsOmitted(f, v);
    forall i | 0 <= i < |d.fields|
      ensures Proto3Default(d.fields[i], SlotAt(d, v.slots, i)) <==> BlankSlot(d.fields[i], SlotAt(d, v.slots, i))
    {
      BlankIsDefault(d.fields[i], SlotAt(d, v.slots, i));
    }
  }

  lemma BlankIsDefault(f: Field, s: Slot)
    requires WFField(f) && ShapeSlot(f, s)
    ensures Proto3Default(f, s) <==> BlankSlot(f, s)
  {
    hide EncField, DefaultItem;
    if s.Single? && Singular(f) {
      DefaultIsOmitted(f, s.v);
    }
  }

  // ---------- Default structs ----------

  /** A field that is left out in a default struct: in a message, or (inside) in a submessage that is to be left out itself. */
  predicate SilentField(f: Field, inside: bool)
    requires WFField(f)
    decreases f
  {
    match f.htype
    case Required => false
    case Repeated => FixedCount(f) ==> !inside && f.arraySize == 0
    case OneOf => true
    case Optional =>
      Singular(f) ==>
        match f.ltype
        case FixedLengthBytes => f.dataSize == 0
        case SubMessage => Silent(f.ptr.desc, true)
        case _ => true
  }

  predicate Silent(d: Desc, inside: bool)
    requires WF(d)
  {
    forall i | 0 <= i < |d.fields| :: SilentField(d.fields[i], inside)
  }

  lemma {:induction false} SilentInside(d: Desc, m: seq<Slot>)
    requires WF(d) && Shape(d, m) && Def(d, m)
    ensures AllDefault(d, m) <==> Silent(d, true)
    decreases d
  {
    forall i | 0 <= i < |d.fields|
      ensures Proto3Default(d.fields[i], SlotAt(d, m, i)) <==> SilentField(d.fields[i], true)
    {
      var f, s := d.fields[i], SlotAt(d, m, i);
      assert DefSlot(f, s);
      if s.Single? && Singular(f) {
        SilentSingular(f, s.v);
      }
    }
  }

  lemma {:induction false} SilentSingular(f: Field, v: Value)
    requires WFField(f) && Singular(f) && ShapeValue(f, v) && DefValue(f, v)
    ensures DefaultItem(f, v) <==> SilentField(f, true)
    ensures SilentField(f, true) <==> SilentField(f, false)
    decreases f
  {
    if f.ltype.SubMessage? {
      SilentInside(f.ptr.desc, v.slots);
    }
  }

  lemma SilentSlot(f: Field, s: Slot)
    requires WFField(f) && ShapeSlot(f, s) && DefSlot(f, s)
    ensures EncField(f, s) == Some([]) <==> SilentField(f, false)
  {
    hide EncRecord, DefaultItem, DefValue;
    if s.Single? {
      RecordNotEmpty(f, s.v);
      if Singular(f) {
        SilentSingular(f, s.v);
      }
    } else if s.Rep? {
      ArrayNotEmpty(f, s.items, ItemCount(f, s));
    }
  }

  lemma ArrayNotEmpty(f: Field, items: seq<Value>, count: nat)
    requires WFField(f) && |items| == f.arraySize && forall j | 0 <= j < |items| :: ShapeValue(f, items[j])
    ensures EncArray(f, items, count) == Some([]) <==> count == 0
  {
    hide EncRecord, EncVarint, ShapeValue;
    EncVarintSpells(8 * f.tag + WT_STRING);
    if 0 < count <= f.arraySize {
      RecordNotEmpty(f, items[0]);
      assert items[..count][0] == items[0];
    }
  }

  predicate SilentFrom(d: Desc, k: nat)
    requires WF(d)
  {
    forall i | k <= i < |d.fields| :: SilentField(d.fields[i], false)
  }

  lemma SilentStep(d: Desc, k: nat)
    requires WF(d) && k <= |d.fields|
    ensures k == |d.fields| ==> SilentFrom(d, k)
    ensures k < |d.fields| ==> (SilentFrom(d, k) <==> SilentField(d.fields[k], false) && SilentFrom(d, k + 1))
  {
    hide WF, SilentField;
  }

  lemma DefaultSlotAt(d: Desc, m: seq<Slot>, k: nat)
    requires WF(d) && Shape(d, m) && Def(d, m) && k < |d.fields|
    ensures DefSlot(d.fields[k], SlotAt(d, m, k))
  {
  }

  lemma JoinNothing(a: Option<bytes>, b: Option<bytes>)
    ensures Join(a, b) == Some([]) <==> a == Some([]) && b == Some([])
  {
    if a.Some? && b.Some? {
      assert |a.value + b.value| == |a.value| + |b.value|;
    }
  }

  lemma {:induction false} SilentFields(d: Desc, m: seq<Slot>, k: nat)
    requires WF(d) && Shape(d, m) && Def(d, m) && k <= |d.fields|
    ensures EncFrom(d, m, k) == Some([]) <==> SilentFrom(d, k)
    decreases |d.fields| - k
  {
    hide Join, EncFrom, EncField, SilentField, SilentFrom, Def, WF, Shape;
    FromStep(d, m, k);
    SilentStep(d, k);
    if k < |d.fields| {
      DefaultSlotAt(d, m, k);
      SilentSlot(d.fields[k], SlotAt(d, m, k));
      SilentFields(d, m, k + 1);
      JoinNothing(EncField(d.fields[k], SlotAt(d, m, k)), EncFrom(d, m, k + 1));
    }
  }

  /**
    A default struct encodes to nothing exactly when the table has no required field and nothing of a fixed
    size that has to be sent, at any depth of singular submessages.
   */
  lemma DefaultsEncodeToNothing(d: Desc, m: seq<Slot>)
    requires WF(d) && Shape(d, m) && Def(d, m)
    ensures EncMessage(d, m) == Some([]) <==> Silent(d, false)
  {
    hide EncFrom, SilentField, Def, Shape;
    SilentFields(d, m, 0);
  }
}
