/**
  Which structs can be encoded, and why what was decoded always can: a struct without overlong or
  unterminated data stays that way through every decode.
 */
module Reencode {
  import opened Basics
  import opened Varint
  import opened Message
  import opened EncodeSpec
  import opened DecodeSpec
  import opened Logical
  import opened Independence
  import opened RoundTrip

  // ---------- When pb_encode can succeed ----------

  predicate FitsValue(f: Field, v: Value)
    requires WFField(f) && ShapeValue(f, v)
    decreases f, 0
  {
    match f.ltype
    case Bytes => |v.b| + BYTES_HEADER <= f.dataSize
    case SubMessage => Fits(f.ptr.desc, v.slots)
    case _ => true
  }

  predicate FitsSlot(f: Field, s: Slot)
    requires WFField(f) && ShapeSlot(f, s)
    decreases f, 1
  {
    match s
    case Single(v) => (Singular(f) && DefaultItem(f, v)) || FitsValue(f, v)
    case Opt(has, v) => has ==> FitsValue(f, v)
    case Rep(_, items) =>
      ItemCount(f, s) <= f.arraySize && forall j | 0 <= j < ItemCount(f, s) && j < f.arraySize :: FitsValue(f, items[j])
    case Union(which, v) => which == f.tag ==> FitsValue(f, v)
  }

  /** Every array and every bytes value that m puts in use is within its capacity. */
  predicate Fits(d: Desc, m: seq<Slot>)
    requires WF(d) && Shape(d, m)
  {
    forall i | 0 <= i < |d.fields| :: FitsSlot(d.fields[i], SlotAt(d, m, i))
  }

  /** A message can be encoded exactly when what is in use is within its capacity, at every depth. */
  lemma {:induction false} EncodableExact(d: Desc, m: seq<Slot>)
    requires WF(d) && Shape(d, m)
    ensures EncMessage(d, m).Some? <==> Fits(d, m)
    decreases d, 1
  {
    hide EncFrom, FitsSlot, WF, Shape;
    EncodableFrom(d, m, 0);
  }

  predicate FitsFrom(d: Desc, m: seq<Slot>, k: nat)
    requires WF(d) && Shape(d, m)
  {
    forall i | k <= i < |d.fields| :: FitsSlot(d.fields[i], SlotAt(d, m, i))
  }

  lemma FitsStep(d: Desc, m: seq<Slot>, k: nat)
    requires WF(d) && Shape(d, m) && k <= |d.fields|
    ensures k == |d.fields| ==> FitsFrom(d, m, k)
    ensures k < |d.fields| ==> (FitsFrom(d, m, k) <==> FitsSlot(d.fields[k], SlotAt(d, m, k)) && FitsFrom(d, m, k + 1))
  {
    hide FitsSlot, WF, Shape;
  }

  lemma {:induction false} EncodableFrom(d: Desc, m: seq<Slot>, k: nat)
    requires WF(d) && Shape(d, m) && k <= |d.fields|
    ensures EncFrom(d, m, k).Some? <==> FitsFrom(d, m, k)
    decreases d, 0, |d.fields| - k
  {
    hide EncFrom, EncField, FitsFrom, FitsSlot, WF, Shape;
    FromStep(d, m, k);
    FitsStep(d, m, k);
    if k < |d.fields| {
      EncodableField(d.fields[k], SlotAt(d, m, k));
      EncodableFrom(d, m, k + 1);
    }
  }

  lemma {:induction false} EncodableField(f: Field, s: Slot)
    requires WFField(f) && ShapeSlot(f, s)
    ensures EncField(f, s).Some? <==> FitsSlot(f, s)
    decreases f, 2
  {
    hide EncValue, FitsValue, EncItems, DefaultItem, Tag;
    if s.Rep? {
      var n := ItemCount(f, s);
      if n <= f.arraySize {
        EncodableItems(f, s.items[..n]);
        assert forall j | 0 <= j < n :: s.items[..n][j] == s.items[j];
      }
    } else if !s.Union? || s.which == f.tag {
      EncodableValue(f, s.v);
    }
  }

  lemma {:induction false} EncodableItems(f: Field, items: seq<Value>)
    requires WFField(f) && forall j | 0 <= j < |items| :: ShapeValue(f, items[j])
    ensures EncItems(f, items).Some? <==> forall j | 0 <= j < |items| :: FitsValue(f, items[j])
    ensures Packable(f.ltype) ==> forall j | 0 <= j < |items| :: FitsValue(f, items[j])
    decreases f, 1, |items|
  {
    hide EncValue, FitsValue, Tag, ShapeValue, WFField;
    if items != [] {
      EncodableValue(f, items[0]);
      EncodableItems(f, items[1..]);
      assert forall j | 0 < j < |items| :: items[j] == items[1..][j - 1];
    }
  }

  lemma {:induction false} EncodableValue(f: Field, v: Value)
    requires WFField(f) && ShapeValue(f, v)
    ensures EncValue(f, v).Some? <==> FitsValue(f, v)
    ensures Packable(f.ltype) ==> FitsValue(f, v)
    decreases f, 0
  {
    hide EncMessage, Fits, CStr, Delimited, EncScalar;
    if f.ltype.SubMessage? {
      EncodableExact(f.ptr.desc, v.slots);
    }
  }

  // ---------- Structs without overlong or unterminated data ----------

  predicate CleanValue(f: Field, v: Value)
    requires WFField(f) && ShapeValue(f, v)
    decreases f, 0
  {
    match f.ltype
    case Bytes => |v.b| + BYTES_HEADER <= f.dataSize
    case String => 0 in v.b
    case SubMessage => Clean(f.ptr.desc, v.slots)
    case _ => true
  }

  predicate CleanSlot(f: Field, s: Slot)
    requires WFField(f) && ShapeSlot(f, s)
    decreases f, 1
  {
    match s
    case Single(v) => CleanValue(f, v)
    case Opt(_, v) => CleanValue(f, v)
    case Rep(count, items) =>
      ItemCount(f, s) <= f.arraySize &&
      forall j | 0 <= j < f.arraySize :: (j < ItemCount(f, s) ==> CleanValue(f, items[j])) && CleanFixedValue(f, items[j])
    case Union(which, v) => which == f.tag ==> CleanValue(f, v)
  }

  /** Counts and lengths are within capacity and strings have their NUL, but for items past the count. */
  predicate Clean(d: Desc, m: seq<Slot>)
    requires WF(d) && Shape(d, m)
  {
    forall i | 0 <= i < |d.fields| :: CleanSlot(d.fields[i], SlotAt(d, m, i))
  }

  predicate CleanFixedValue(f: Field, v: Value)
    requires WFField(f) && ShapeValue(f, v)
    decreases f, 0
  {
    f.ltype.SubMessage? ==> CleanFixed(f.ptr.desc, v.slots)
  }

  predicate CleanFixedSlot(f: Field, s: Slot)
    requires WFField(f) && ShapeSlot(f, s)
    decreases f, 1
  {
    match s
    case Single(v) => CleanFixedValue(f, v)
    case Opt(_, v) => CleanFixedValue(f, v)
    case Rep(_, items) =>
      forall j | 0 <= j < f.arraySize :: (FixedCount(f) ==> CleanValue(f, items[j])) && CleanFixedValue(f, items[j])
    case Union(_, _) => true
  }

  /** The items of fixed-count arrays, which setting the defaults leaves as they are, are clean. */
  predicate CleanFixed(d: Desc, m: seq<Slot>)
    requires WF(d) && Shape(d, m)
  {
    forall i | 0 <= i < |d.fields| :: CleanFixedSlot(d.fields[i], SlotAt(d, m, i))
  }

  predicate CleanDefault(f: Field)
    requires WFField(f)
    decreases f
  {
    match f.ptr
    case NullPtr => true
    case DefaultPtr(x) => CleanValue(f, x)
    case FieldsPtr(d) => CleanTable(d)
  }

  /** The default values in the table are clean, at every depth. */
  predicate CleanTable(d: Desc)
    requires WF(d)
  {
    forall i | 0 <= i < |d.fields| :: CleanDefault(d.fields[i])
  }

  /** What is clean can be encoded, and decoded again. */
  lemma {:induction false} CleanEncodes(d: Desc, m: seq<Slot>)
    requires WF(d) && Shape(d, m) && Clean(d, m)
    ensures Fits(d, m) && Term(d, m)
  {
    forall i | 0 <= i < |d.fields| ensures FitsSlot(d.fields[i], SlotAt(d, m, i)) && TermSlot(d.fields[i], SlotAt(d, m, i)) {
      assert CleanSlot(d.fields[i], SlotAt(d, m, i));
      CleanSlotEncodes(d.fields[i], SlotAt(d, m, i));
    }
  }

  lemma {:induction false} CleanSlotEncodes(f: Field, s: Slot)
    requires WFField(f) && ShapeSlot(f, s) && CleanSlot(f, s)
    ensures FitsSlot(f, s) && TermSlot(f, s)
    decreases f, 1
  {
    hide DefaultItem, CleanValue, CleanFixedValue, FitsValue, TermValue;
    if s.Rep? {
      forall j | 0 <= j < ItemCount(f, s) ensures FitsValue(f, s.items[j]) && TermValue(f, s.items[j]) {
        CleanValueEncodes(f, s.items[j]);
      }
    } else if !s.Union? || s.which == f.tag {
      CleanValueEncodes(f, s.v);
    }
  }

  lemma {:induction false} CleanValueEncodes(f: Field, v: Value)
    requires WFField(f) && ShapeValue(f, v) && CleanValue(f, v)
    ensures FitsValue(f, v) && TermValue(f, v)
    decreases f, 0
  {
    if f.ltype.SubMessage? {
      CleanEncodes(f.ptr.desc, v.slots);
    }
  }

  /** Without fixed-count arrays there is nothing to ask for. */
  lemma {:induction false} NoFixedIsClean(d: Desc, m: seq<Slot>)
    requires WF(d) && Shape(d, m) && NoFixedAnywhere(d)
    ensures CleanFixed(d, m)
    decreases d
  {
    forall i | 0 <= i < |d.fields| ensures CleanFixedSlot(d.fields[i], SlotAt(d, m, i)) {
      NoFixedSlotIsClean(d.fields[i], SlotAt(d, m, i));
    }
  }

  lemma {:induction false} NoFixedSlotIsClean(f: Field, s: Slot)
    requires WFField(f) && ShapeSlot(f, s) && NoFixedIn(f)
    ensures CleanFixedSlot(f, s)
    decreases f, 1
  {
    hide CleanFixedValue;
    if s.Rep? {
      forall j | 0 <= j < f.arraySize ensures CleanFixedValue(f, s.items[j]) {
        NoFixedValueIsClean(f, s.items[j]);
      }
    } else if !s.Union? {
      NoFixedValueIsClean(f, s.v);
    }
  }

  lemma {:induction false} NoFixedValueIsClean(f: Field, v: Value)
    requires WFField(f) && ShapeValue(f, v) && NoFixedIn(f)
    ensures CleanFixedValue(f, v)
    decreases f, 0
  {
    if f.ltype.SubMessage? {
      NoFixedIsClean(f.ptr.desc, v.slots);
    }
  }

  lemma {:induction false} CleanKeepsFixed(d: Desc, m: seq<Slot>)
    requires WF(d) && Shape(d, m) && Clean(d, m)
    ensures CleanFixed(d, m)
    decreases d
  {
    forall i | 0 <= i < |d.fields| ensures CleanFixedSlot(d.fields[i], SlotAt(d, m, i)) {
      var f, s := d.fields[i], SlotAt(d, m, i);
      assert CleanSlot(f, s);
      if s.Single? || s.Opt? {
        CleanValueKeepsFixed(f, s.v);
      }
    }
  }

  lemma {:induction false} CleanValueKeepsFixed(f: Field, v: Value)
    requires WFField(f) && ShapeValue(f, v) && CleanValue(f, v)
    ensures CleanFixedValue(f, v)
    decreases f, 0
  {
    if f.ltype.SubMessage? {
      CleanKeepsFixed(f.ptr.desc, v.slots);
    }
  }

  /** A zeroed struct is clean. */
  lemma {:induction false} ZeroIsClean(d: Desc)
    requires WF(d)
    ensures Clean(d, ZeroMessage(d))
    decreases d
  {
    var z := ZeroMessage(d);
    forall i | 0 <= i < |d.fields| ensures CleanSlot(d.fields[i], SlotAt(d, z, i)) {
      var k := SlotOf(d.fields, i);
      assert WFField(d.fields[i]) && WFField(d.fields[k]);
      assert z[k] == ZeroSlot(d.fields[k]);
      if !d.fields[i].htype.OneOf? {
        ZeroValueIsClean(d.fields[i]);
        CleanValueKeepsFixed(d.fields[i], ZeroValue(d.fields[i]));
      }
    }
  }

  lemma {:induction false} ZeroValueIsClean(f: Field)
    requires WFField(f)
    ensures CleanValue(f, ZeroValue(f))
    decreases f
  {
    if f.ltype.SubMessage? {
      ZeroIsClean(f.ptr.desc);
    } else if f.ltype.String? {
      assert Zeros(f.dataSize)[0] == 0;
    }
  }

  /** Setting the defaults makes a struct clean, whatever it held but for fixed-count items. */
  lemma {:induction false} DefaultsAreClean(d: Desc, m: seq<Slot>)
    requires WF(d) && Shape(d, m) && CleanFixed(d, m) && CleanTable(d)
    ensures Clean(d, DefaultMessage(d, m))
    decreases d
  {
    var r := DefaultMessage(d, m);
    forall i | 0 <= i < |d.fields| ensures CleanSlot(d.fields[i], SlotAt(d, r, i)) {
      var f, k := d.fields[i], SlotOf(d.fields, i);
      SlotOfSlot(d.fields, i);
      assert WFField(d.fields[k]) && ShapeSlot(d.fields[k], SlotAt(d, m, k));
      assert r[k] == DefaultSlot(d.fields[k], m[k]);
      assert CleanFixedSlot(f, SlotAt(d, m, i)) && CleanDefault(f);
      if !f.htype.OneOf? && !f.htype.Repeated? {
        DefaultValueIsClean(f, m[i].v);
      }
    }
  }

  lemma {:induction false} DefaultValueIsClean(f: Field, v: Value)
    requires WFField(f) && ShapeValue(f, v) && CleanFixedValue(f, v) && CleanDefault(f)
    ensures CleanValue(f, DefaultValue(f, v))
    decreases f
  {
    if f.ltype.SubMessage? {
      DefaultsAreClean(f.ptr.desc, v.slots);
    } else {
      ZeroValueIsClean(f);
    }
  }

  // ---------- Decoding keeps a struct clean ----------

  lemma CleanUpdate(d: Desc, m: seq<Slot>, i: nat, s: Slot)
    requires WF(d) && Shape(d, m) && Clean(d, m) && i < |d.fields|
    requires ShapeSlot(d.fields[i], s) && WFField(d.fields[i]) && CleanSlot(d.fields[i], s)
    requires d.fields[i].htype.OneOf? ==> s.which == d.fields[i].tag
    ensures Shape(d, m[SlotOf(d.fields, i) := s]) && Clean(d, m[SlotOf(d.fields, i) := s])
  {
    hide CleanValue, CleanFixedValue, ShapeValue;
    ShapeUpdate(d, m, i, s);
    var m' := m[SlotOf(d.fields, i) := s];
    forall j | 0 <= j < |d.fields| ensures CleanSlot(d.fields[j], SlotAt(d, m', j)) {
      assert CleanSlot(d.fields[j], SlotAt(d, m, j));
      if SlotOf(d.fields, j) == SlotOf(d.fields, i) && j != i {
        assert d.fields[i].tag != d.fields[j].tag;
        assert d.fields[i].htype.OneOf? && d.fields[j].htype.OneOf?;
      }
    }
  }

  lemma BlobClean(f: Field, prev: bytes, b: bytes)
    requires f.ltype.Bytes? || f.ltype.String? || f.ltype.FixedLengthBytes?
    requires WFField(f) && ShapeValue(f, Blob(prev)) && DecBlob(f, prev, b).Got?
    ensures CleanValue(f, Blob(DecBlob(f, prev, b).v))
  {
    hide Varint32;
    if f.ltype.String? {
      var n := Varint32(b).v;
      var r := DecBlob(f, prev, b).v;
      assert r[n] == 0;
    }
  }

  lemma {:induction false} ValueClean(f: Field, prev: Value, b: bytes)
    requires WFField(f) && ShapeValue(f, prev) && CleanDefault(f) && DecValue(f, prev, b).Got?
    requires if f.htype.Repeated? then CleanFixedValue(f, prev) else CleanValue(f, prev)
    ensures CleanValue(f, DecValue(f, prev, b).v)
    decreases |b|, 0
  {
    hide DecScalar, DecBlob, DecNoInit, Frame, Clean, CleanFixed, CleanTable;
    if f.ltype.SubMessage? {
      var d := f.ptr.desc;
      var start := if f.htype.Repeated? then DefaultMessage(d, prev.slots) else prev.slots;
      if f.htype.Repeated? {
        DefaultsAreClean(d, prev.slots);
      }
      MessageClean(d, Frame(b).v, start);
    } else if !Packable(f.ltype) {
      BlobClean(f, prev.b, b);
    }
  }

  lemma UnionStartClean(f: Field, s: Slot)
    requires WFField(f) && f.htype.OneOf? && ShapeSlot(f, s) && CleanSlot(f, s) && CleanDefault(f)
    ensures CleanValue(f, UnionStart(f, s))
  {
    hide CleanValue, CleanFixedValue, CleanDefault, ZeroValue, DefaultValue;
    ZeroValueIsClean(f);
    CleanValueKeepsFixed(f, ZeroValue(f));
    DefaultValueIsClean(f, ZeroValue(f));
  }

  lemma {:induction false} PackedClean(f: Field, b: bytes, items: seq<Value>, size: nat)
    requires Packable(f.ltype) && WFField(f)
    requires size <= |items| && forall j | 0 <= j < |items| :: ShapeValue(f, items[j])
    requires DecPacked(f, b, items, size).Some?
    ensures forall j | 0 <= j < |items| ::
              CleanValue(f, DecPacked(f, b, items, size).value.0[j]) && CleanFixedValue(f, DecPacked(f, b, items, size).value.0[j])
  {
  }

  lemma {:induction false} FieldClean(d: Desc, i: nat, wt: nat, b: bytes, st: Loop)
    requires WF(d) && LoopShape(d, st) && i < |d.fields| && (FixedCount(d.fields[i]) ==> st.fixed == i)
    requires Clean(d, st.m) && CleanTable(d) && DecField(d, i, wt, b, st).Got?
    ensures Clean(d, DecField(d, i, wt, b, st).v.m)
    decreases |b|, 1
  {
    hide DecValue, DecPacked, Frame, Clean, WF, Shape, WFField, ShapeValue, CleanValue, CleanFixedValue, UnionStart, CleanDefault;
    var f, s := d.fields[i], SlotAt(d, st.m, i);
    CleanAt(d, st.m, i);
    if f.htype.Repeated? {
      var size := SizeAt(d, st, i);
      if wt == WT_STRING && Packable(f.ltype) {
        PackedFieldClean(d, i, b, st);
      } else {
        var v := DecValue(f, s.items[size], b).v;
        ValueClean(f, s.items[size], b);
        CleanValueKeepsFixed(f, v);
        PutItemsClean(d, i, s.items[size := v], size + 1, st);
      }
    } else if f.htype.OneOf? {
      UnionStartClean(f, s);
      var v := DecValue(f, UnionStart(f, s), b).v;
      ValueClean(f, UnionStart(f, s), b);
      CleanUpdate(d, st.m, i, Union(f.tag, v));
    } else {
      ValueClean(f, s.v, b);
      var v := DecValue(f, s.v, b).v;
      CleanUpdate(d, st.m, i, if s.Opt? then Opt(true, v) else Single(v));
    }
  }

  lemma CleanAt(d: Desc, m: seq<Slot>, i: nat)
    requires WF(d) && Shape(d, m) && i < |d.fields| && Clean(d, m) && CleanTable(d)
    ensures WFField(d.fields[i]) && ShapeSlot(d.fields[i], SlotAt(d, m, i))
    ensures CleanSlot(d.fields[i], SlotAt(d, m, i)) && CleanDefault(d.fields[i])
  {
  }

  lemma PutItemsClean(d: Desc, i: nat, items: seq<Value>, size: nat, st: Loop)
    requires WF(d) && LoopShape(d, st) && i < |d.fields| && d.fields[i].htype.Repeated?
    requires FixedCount(d.fields[i]) ==> st.fixed == i
    requires |items| == d.fields[i].arraySize >= size && WFField(d.fields[i])
    requires forall j | 0 <= j < |items| :: ShapeValue(d.fields[i], items[j]) && CleanFixedValue(d.fields[i], items[j])
    requires forall j | 0 <= j < |items| && (FixedCount(d.fields[i]) || j < size) :: CleanValue(d.fields[i], items[j])
    requires Clean(d, st.m)
    ensures Clean(d, PutItems(d, i, items, size, st).m)
  {
    hide Clean, WF, Shape, WFField, ShapeValue, CleanValue, CleanFixedValue;
    CleanUpdate(d, st.m, i, Rep(if FixedCount(d.fields[i]) then SlotAt(d, st.m, i).count else size, items));
  }

  lemma PackedFieldClean(d: Desc, i: nat, b: bytes, st: Loop)
    requires WF(d) && LoopShape(d, st) && i < |d.fields| && (FixedCount(d.fields[i]) ==> st.fixed == i)
    requires d.fields[i].htype.Repeated? && Packable(d.fields[i].ltype) && WFField(d.fields[i])
    requires Clean(d, st.m) && DecPackedField(d, i, b, st).Got?
    ensures Clean(d, DecPackedField(d, i, b, st).v.m)
  {
    hide DecPacked, Frame, Clean, WF, Shape, ShapeValue, CleanValue;
    var f, s, size := d.fields[i], SlotAt(d, st.m, i), SizeAt(d, st, i);
    if size <= f.arraySize {
      var r := DecPacked(f, Frame(b).v, s.items, size).value;
      PackedClean(f, Frame(b).v, s.items, size);
      PutItemsClean(d, i, r.0, r.1, st);
    }
  }

  lemma {:induction false} LoopClean(d: Desc, b: bytes, st: Loop)
    requires WF(d) && LoopShape(d, st) && Clean(d, st.m) && CleanTable(d) && DecLoop(d, b, st).Got?
    ensures Clean(d, DecLoop(d, b, st).v.m)
    decreases |b|, 2
  {
    hide DecField, DecTag, Clean, CleanTable, WF, Shape, Skip, FindTag;
    if b != [] && DecTag(b).TagOk? {
      var t := DecTag(b);
      var i := FindTag(d.fields, t.tag);
      if i >= 0 {
        FieldClean(d, i, t.wt, t.rest, Enter(d, i, st).value);
      }
      var s := DecStep(d, t.tag, t.wt, t.rest, st);
      LoopClean(d, s.rest, s.v);
    }
  }

  /** pb_decode_noinit keeps a struct clean, whatever the bytes. */
  lemma {:induction false} MessageClean(d: Desc, b: bytes, m: seq<Slot>)
    requires WF(d) && Shape(d, m) && Clean(d, m) && CleanTable(d) && DecNoInit(d, b, m).Got?
    ensures Clean(d, DecNoInit(d, b, m).v)
    decreases |b|, 3
  {
    hide DecLoop, Clean, CleanTable, WF, Shape;
    LoopClean(d, b, Start(m));
  }

  /**
    Whatever bytes pb_decode accepts, into a struct with any content: the message can be encoded, and the
    encoding, which may differ from those bytes, decodes to the same message. Only the items of
    fixed-count arrays, which are kept when they are not received, have to be clean before.
   */
  lemma DecodedCanBeSentOn(d: Desc, b: bytes, m: seq<Slot>, junk: seq<Slot>)
    requires WF(d) && Shape(d, m) && Shape(d, junk) && CleanTable(d)
    requires NoFixedAnywhere(d) || CleanFixed(d, m)
    requires Decode(d, b, m).Got?
    ensures var m' := Decode(d, b, m).v;
            Clean(d, m') && EncMessage(d, m').Some? &&
            (|EncMessage(d, m').value| < TWO_32 ==>
              var r := Decode(d, EncMessage(d, m').value, junk);
              r.Got? && r.rest == [] && Same(d, r.v, m'))
  {
    hide DecNoInit, EncMessage, Clean, CleanFixed, NoFixedAnywhere, CleanTable, WF, Shape, Fits, Term, Same, DefaultMessage;
    if NoFixedAnywhere(d) {
      NoFixedIsClean(d, m);
    }
    DefaultsAreClean(d, m);
    MessageClean(d, b, DefaultMessage(d, m));
    var m' := Decode(d, b, m).v;
    CleanEncodes(d, m');
    EncodableExact(d, m');
    if |EncMessage(d, m').value| < TWO_32 {
      FullRoundTrip(d, m', junk);
    }
  }
}
