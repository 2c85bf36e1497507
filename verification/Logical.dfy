/** When two structs hold the same message, when a struct is in its default state, and omitted proto3 fields. */
module Logical {
  import opened Message
  import opened EncodeSpec
  import opened DecodeSpec

  // ---------- The same message ----------

  /** Bools agree as truth values, strings up to their NUL, the rest exactly. */
  predicate SameValue(f: Field, a: Value, b: Value)
    requires WFField(f) && ShapeValue(f, a) && ShapeValue(f, b)
    decreases f, 0
  {
    match f.ltype
    case Bool => (a.i != 0) == (b.i != 0)
    case String => CStr(a.b) == CStr(b.b)
    case SubMessage => Same(f.ptr.desc, a.slots, b.slots)
    case _ => a == b
  }

  /** Data that is not in use (has_ unset, items past the count, other union members) does not matter. */
  predicate SameSlot(f: Field, a: Slot, b: Slot)
    requires WFField(f) && ShapeSlot(f, a) && ShapeSlot(f, b)
    decreases f, 1
  {
    match f.htype
    case Required => SameValue(f, a.v, b.v)
    case Optional => if Singular(f) then SameValue(f, a.v, b.v) else a.has == b.has && (a.has ==> SameValue(f, a.v, b.v))
    case Repeated =>
      ItemCount(f, a) == ItemCount(f, b) &&
      forall j | 0 <= j < ItemCount(f, a) && j < f.arraySize :: SameValue(f, a.items[j], b.items[j])
    case OneOf => (a.which == f.tag) == (b.which == f.tag) && (a.which == f.tag ==> SameValue(f, a.v, b.v))
  }

  predicate Same(d: Desc, a: seq<Slot>, b: seq<Slot>)
    requires WF(d) && Shape(d, a) && Shape(d, b)
  {
    forall i | 0 <= i < |d.fields| :: SameSlot(d.fields[i], SlotAt(d, a, i), SlotAt(d, b, i))
  }

  // ---------- The default state ----------

  predicate DefValue(f: Field, v: Value)
    requires WFField(f) && ShapeValue(f, v)
    decreases f, 0
  {
    match f.ptr
    case FieldsPtr(d) => Def(d, v.slots)
    case DefaultPtr(x) => v == x
    case NullPtr => v == ZeroValue(f)
  }

  predicate DefSlot(f: Field, s: Slot)
    requires WFField(f) && ShapeSlot(f, s)
    decreases f, 1
  {
    match s
    case Single(v) => DefValue(f, v)
    case Opt(has, v) => !has && DefValue(f, v)
    case Rep(count, _) => FixedCount(f) || count == 0
    case Union(which, _) => which == 0
  }

  predicate Def(d: Desc, m: seq<Slot>)
    requires WF(d) && Shape(d, m)
  {
    forall i | 0 <= i < |d.fields| :: DefSlot(d.fields[i], SlotAt(d, m, i))
  }

  /** pb_message_set_to_defaults brings any struct to its default state, at every depth. */
  lemma {:induction false} DefaultsAreDefault(d: Desc, m: seq<Slot>)
    requires WF(d) && Shape(d, m)
    ensures Def(d, DefaultMessage(d, m))
  {
    var r := DefaultMessage(d, m);
    forall i | 0 <= i < |d.fields| ensures DefSlot(d.fields[i], SlotAt(d, r, i)) {
      var k := SlotOf(d.fields, i);
      SlotOfSlot(d.fields, i);
      assert WFField(d.fields[k]) && ShapeSlot(d.fields[k], SlotAt(d, m, k));
      assert r[k] == DefaultSlot(d.fields[k], m[k]);
      if k == i {
        DefaultSlotIsDefault(d.fields[i], m[i]);
      }
    }
  }

  lemma {:induction false} DefaultSlotIsDefault(f: Field, s: Slot)
    requires WFField(f) && ShapeSlot(f, s)
    ensures DefSlot(f, DefaultSlot(f, s))
    decreases f, 1
  {
    if s.Single? || s.Opt? {
      DefaultValueIsDefault(f, s.v);
    }
  }

  lemma {:induction false} DefaultValueIsDefault(f: Field, v: Value)
    requires WFField(f) && ShapeValue(f, v)
    ensures DefValue(f, DefaultValue(f, v))
    decreases f, 0
  {
    if f.ptr.FieldsPtr? {
      DefaultsAreDefault(f.ptr.desc, v.slots);
    }
  }

  // ---------- Omitted proto3 fields ----------

  /**
    Omitting a field because pb_check_proto3_default_value says "default" loses nothing: the
    state that pb_message_set_to_defaults leaves is the same message, at every depth.
   */
  lemma {:induction false} OmissionLosesNothing(d: Desc, m: seq<Slot>, r: seq<Slot>)
    requires WF(d) && Shape(d, m) && Shape(d, r) && Def(d, r)
    requires AllDefault(d, m)
    ensures Same(d, r, m)
  {
    forall i | 0 <= i < |d.fields| ensures SameSlot(d.fields[i], SlotAt(d, r, i), SlotAt(d, m, i)) {
      assert DefSlot(d.fields[i], SlotAt(d, r, i));
      assert Proto3Default(d.fields[i], SlotAt(d, m, i));
      OmittedSlot(d.fields[i], SlotAt(d, m, i), SlotAt(d, r, i));
    }
  }

  lemma {:induction false} OmittedSlot(f: Field, s: Slot, r: Slot)
    requires WFField(f) && ShapeSlot(f, s) && ShapeSlot(f, r) && DefSlot(f, r)
    requires Proto3Default(f, s)
    ensures SameSlot(f, r, s)
    decreases f, 1
  {
    if s.Single? {
      OmittedItem(f, s.v, r.v);
    }
  }

  lemma {:induction false} OmittedItem(f: Field, v: Value, r: Value)
    requires WFField(f) && Singular(f) && ShapeValue(f, v) && ShapeValue(f, r) && DefValue(f, r)
    requires DefaultItem(f, v)
    ensures SameValue(f, r, v)
    decreases f, 0
  {
    if f.ltype.SubMessage? {
      OmissionLosesNothing(f.ptr.desc, v.slots, r.slots);
    }
  }

  // ---------- Strings that are encoded end in a NUL ----------

  predicate TermValue(f: Field, v: Value)
    requires WFField(f) && ShapeValue(f, v)
    decreases f, 0
  {
    match f.ltype
    case String => 0 in v.b
    case SubMessage => Term(f.ptr.desc, v.slots)
    case _ => true
  }

  predicate TermSlot(f: Field, s: Slot)
    requires WFField(f) && ShapeSlot(f, s)
    decreases f, 1
  {
    match s
    case Single(v) => (Singular(f) && DefaultItem(f, v)) || TermValue(f, v)
    case Opt(has, v) => has ==> TermValue(f, v)
    case Rep(_, items) => forall j | 0 <= j < ItemCount(f, s) && j < f.arraySize :: TermValue(f, items[j])
    case Union(which, v) => which == f.tag ==> TermValue(f, v)
  }

  /** Every string that encoding m writes has its NUL inside its buffer. */
  predicate Term(d: Desc, m: seq<Slot>)
    requires WF(d) && Shape(d, m)
  {
    forall i | 0 <= i < |d.fields| :: TermSlot(d.fields[i], SlotAt(d, m, i))
  }
}
