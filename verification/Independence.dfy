/**
  What decoding depends on: the bytes, and of the previous content of the struct only what is in use.
  Two structs are alike when decoding the same bytes into both cannot tell them apart.
 */
module Independence {
  import opened Basics
  import opened Varint
  import opened Message
  import opened EncodeSpec
  import opened DecodeSpec
  import opened Logical
  import opened RoundTripItems

  // ---------- Alike structs ----------

  /** The same, but for the bytes behind the NUL of a string. */
  predicate AlikeValue(f: Field, a: Value, b: Value)
    requires WFField(f) && ShapeValue(f, a) && ShapeValue(f, b)
    decreases f, 0
  {
    match f.ltype
    case String => CStr(a.b) == CStr(b.b)
    case SubMessage => Alike(f.ptr.desc, a.slots, b.slots)
    case _ => a == b
  }

  /** Items past the count and the content of a union under another tag do not matter. */
  predicate AlikeSlot(f: Field, s: Slot, t: Slot)
    requires WFField(f) && ShapeSlot(f, s) && ShapeSlot(f, t)
    decreases f, 1
  {
    match f.htype
    case Required => AlikeValue(f, s.v, t.v)
    case Optional => (s.Opt? ==> s.has == t.has) && AlikeValue(f, s.v, t.v)
    case Repeated =>
      (FixedCount(f) || s.count == t.count) &&
      forall j | 0 <= j < f.arraySize ::
        (j < ItemCount(f, s) ==> AlikeValue(f, s.items[j], t.items[j])) && SameFixedValue(f, s.items[j], t.items[j])
    case OneOf => s.which == t.which && (s.which == f.tag ==> AlikeValue(f, s.v, t.v))
  }

  predicate Alike(d: Desc, a: seq<Slot>, b: seq<Slot>)
    requires WF(d) && Shape(d, a) && Shape(d, b)
  {
    forall i | 0 <= i < |d.fields| :: AlikeSlot(d.fields[i], SlotAt(d, a, i), SlotAt(d, b, i))
  }

  // ---------- What survives setting the defaults ----------

  predicate SameFixedValue(f: Field, a: Value, b: Value)
    requires WFField(f) && ShapeValue(f, a) && ShapeValue(f, b)
    decreases f, 0
  {
    f.ltype.SubMessage? ==> SameFixed(f.ptr.desc, a.slots, b.slots)
  }

  predicate SameFixedSlot(f: Field, s: Slot, t: Slot)
    requires WFField(f) && ShapeSlot(f, s) && ShapeSlot(f, t)
    decreases f, 1
  {
    match f.htype
    case Required | Optional => SameFixedValue(f, s.v, t.v)
    case Repeated =>
      forall j | 0 <= j < f.arraySize ::
        (FixedCount(f) ==> AlikeValue(f, s.items[j], t.items[j])) && SameFixedValue(f, s.items[j], t.items[j])
    case OneOf => true
  }

  /** The items of fixed-count arrays, at any depth outside unions, are alike. */
  predicate SameFixed(d: Desc, a: seq<Slot>, b: seq<Slot>)
    requires WF(d) && Shape(d, a) && Shape(d, b)
  {
    forall i | 0 <= i < |d.fields| :: SameFixedSlot(d.fields[i], SlotAt(d, a, i), SlotAt(d, b, i))
  }

  /** No fixed-count array at any depth. */
  predicate NoFixedAnywhere(d: Desc)
    requires WF(d)
  {
    forall i | 0 <= i < |d.fields| :: NoFixedIn(d.fields[i])
  }

  predicate NoFixedIn(f: Field)
    requires WFField(f)
    decreases f
  {
    !FixedCount(f) && (f.ltype.SubMessage? ==> NoFixedAnywhere(f.ptr.desc))
  }

  lemma {:induction false} NothingFixed(d: Desc, a: seq<Slot>, b: seq<Slot>)
    requires WF(d) && Shape(d, a) && Shape(d, b) && NoFixedAnywhere(d)
    ensures SameFixed(d, a, b)
    decreases d
  {
    forall i | 0 <= i < |d.fields| ensures SameFixedSlot(d.fields[i], SlotAt(d, a, i), SlotAt(d, b, i)) {
      NothingFixedSlot(d.fields[i], SlotAt(d, a, i), SlotAt(d, b, i));
    }
  }

  lemma {:induction false} NothingFixedSlot(f: Field, s: Slot, t: Slot)
    requires WFField(f) && ShapeSlot(f, s) && ShapeSlot(f, t) && NoFixedIn(f)
    ensures SameFixedSlot(f, s, t)
    decreases f, 1
  {
    hide SameFixedValue;
    if f.htype.Repeated? {
      forall j | 0 <= j < f.arraySize ensures SameFixedValue(f, s.items[j], t.items[j]) {
        NothingFixedValue(f, s.items[j], t.items[j]);
      }
    } else if !f.htype.OneOf? {
      NothingFixedValue(f, s.v, t.v);
    }
  }

  lemma {:induction false} NothingFixedValue(f: Field, a: Value, b: Value)
    requires WFField(f) && ShapeValue(f, a) && ShapeValue(f, b) && NoFixedIn(f)
    ensures SameFixedValue(f, a, b)
    decreases f, 0
  {
    if f.ltype.SubMessage? {
      NothingFixed(f.ptr.desc, a.slots, b.slots);
    }
  }

  lemma {:induction false} AlikeKeepsFixed(d: Desc, a: seq<Slot>, b: seq<Slot>)
    requires WF(d) && Shape(d, a) && Shape(d, b) && Alike(d, a, b)
    ensures SameFixed(d, a, b)
    decreases d
  {
    forall i | 0 <= i < |d.fields| ensures SameFixedSlot(d.fields[i], SlotAt(d, a, i), SlotAt(d, b, i)) {
      var f, s, t := d.fields[i], SlotAt(d, a, i), SlotAt(d, b, i);
      assert AlikeSlot(f, s, t);
      if !f.htype.OneOf? && !f.htype.Repeated? {
        AlikeValueKeepsFixed(f, s.v, t.v);
      }
    }
  }

  lemma {:induction false} AlikeValueKeepsFixed(f: Field, a: Value, b: Value)
    requires WFField(f) && ShapeValue(f, a) && ShapeValue(f, b) && AlikeValue(f, a, b)
    ensures SameFixedValue(f, a, b)
    decreases f, 0
  {
    if f.ltype.SubMessage? {
      AlikeKeepsFixed(f.ptr.desc, a.slots, b.slots);
    }
  }

  lemma {:induction false} AlikeItself(d: Desc, a: seq<Slot>)
    requires WF(d) && Shape(d, a)
    ensures Alike(d, a, a)
    decreases d
  {
    forall i | 0 <= i < |d.fields| ensures AlikeSlot(d.fields[i], SlotAt(d, a, i), SlotAt(d, a, i)) {
      AlikeSlotItself(d.fields[i], SlotAt(d, a, i));
    }
  }

  lemma {:induction false} AlikeSlotItself(f: Field, s: Slot)
    requires WFField(f) && ShapeSlot(f, s)
    ensures AlikeSlot(f, s, s)
    decreases f, 1
  {
    hide AlikeValue, SameFixedValue;
    if f.htype.Repeated? {
      forall j | 0 <= j < f.arraySize ensures AlikeValue(f, s.items[j], s.items[j]) && SameFixedValue(f, s.items[j], s.items[j]) {
        AlikeValueItself(f, s.items[j]);
      }
    } else if !f.htype.OneOf? || s.which == f.tag {
      AlikeValueItself(f, s.v);
    }
  }

  lemma {:induction false} AlikeValueItself(f: Field, v: Value)
    requires WFField(f) && ShapeValue(f, v)
    ensures AlikeValue(f, v, v) && SameFixedValue(f, v, v)
    decreases f, 0
  {
    if f.ltype.SubMessage? {
      AlikeItself(f.ptr.desc, v.slots);
    }
    AlikeValueKeepsFixed(f, v, v);
  }

  /** Alike structs hold the same message. */
  lemma {:induction false} AlikeIsSame(d: Desc, a: seq<Slot>, b: seq<Slot>)
    requires WF(d) && Shape(d, a) && Shape(d, b) && Alike(d, a, b)
    ensures Same(d, a, b)
    decreases d
  {
    forall i | 0 <= i < |d.fields| ensures SameSlot(d.fields[i], SlotAt(d, a, i), SlotAt(d, b, i)) {
      assert AlikeSlot(d.fields[i], SlotAt(d, a, i), SlotAt(d, b, i));
      AlikeSlotIsSame(d.fields[i], SlotAt(d, a, i), SlotAt(d, b, i));
    }
  }

  lemma {:induction false} AlikeSlotIsSame(f: Field, s: Slot, t: Slot)
    requires WFField(f) && ShapeSlot(f, s) && ShapeSlot(f, t) && AlikeSlot(f, s, t)
    ensures SameSlot(f, s, t)
    decreases f, 1
  {
    hide AlikeValue, SameFixedValue, SameValue;
    if f.htype.Repeated? {
      forall j | 0 <= j < ItemCount(f, s) && j < f.arraySize ensures SameValue(f, s.items[j], t.items[j]) {
        AlikeValueIsSame(f, s.items[j], t.items[j]);
      }
    } else if !f.htype.OneOf? || s.which == f.tag {
      AlikeValueIsSame(f, s.v, t.v);
    }
  }

  lemma {:induction false} AlikeValueIsSame(f: Field, a: Value, b: Value)
    requires WFField(f) && ShapeValue(f, a) && ShapeValue(f, b) && AlikeValue(f, a, b)
    ensures SameValue(f, a, b)
    decreases f, 0
  {
    if f.ltype.SubMessage? {
      AlikeIsSame(f.ptr.desc, a.slots, b.slots);
    }
  }

  /** Setting the defaults makes structs alike that differ in anything but fixed-count items. */
  lemma {:induction false} DefaultsAlike(d: Desc, a: seq<Slot>, b: seq<Slot>)
    requires WF(d) && Shape(d, a) && Shape(d, b) && SameFixed(d, a, b)
    ensures Alike(d, DefaultMessage(d, a), DefaultMessage(d, b))
    decreases d
  {
    var a', b' := DefaultMessage(d, a), DefaultMessage(d, b);
    forall i | 0 <= i < |d.fields| ensures AlikeSlot(d.fields[i], SlotAt(d, a', i), SlotAt(d, b', i)) {
      var f, k := d.fields[i], SlotOf(d.fields, i);
      SlotOfSlot(d.fields, i);
      assert WFField(d.fields[k]) && ShapeSlot(d.fields[k], SlotAt(d, a, k)) && ShapeSlot(d.fields[k], SlotAt(d, b, k));
      assert a'[k] == DefaultSlot(d.fields[k], a[k]) && b'[k] == DefaultSlot(d.fields[k], b[k]);
      assert SameFixedSlot(f, SlotAt(d, a, i), SlotAt(d, b, i));
      if !f.htype.OneOf? && !f.htype.Repeated? {
        DefaultValuesAlike(f, a[i].v, b[i].v);
      }
    }
  }

  lemma {:induction false} DefaultValuesAlike(f: Field, a: Value, b: Value)
    requires WFField(f) && ShapeValue(f, a) && ShapeValue(f, b) && SameFixedValue(f, a, b)
    ensures AlikeValue(f, DefaultValue(f, a), DefaultValue(f, b))
    decreases f
  {
    if f.ltype.SubMessage? {
      DefaultsAlike(f.ptr.desc, a.slots, b.slots);
    }
  }

  // ---------- Decoding into alike structs ----------

  /** Two decodes of a value fail both, or read the same bytes and give alike values. */
  predicate AlikeParsed(f: Field, p: Parsed<Value>, q: Parsed<Value>)
    requires WFField(f) && (p.Got? ==> ShapeValue(f, p.v)) && (q.Got? ==> ShapeValue(f, q.v))
  {
    if p.Bad? || q.Bad? then p.Bad? && q.Bad? else p.rest == q.rest && AlikeValue(f, p.v, q.v)
  }

  predicate AlikeLoop(d: Desc, s: Loop, t: Loop)
    requires WF(d) && LoopShape(d, s) && LoopShape(d, t)
  {
    Alike(d, s.m, t.m) && s.(m := t.m) == t
  }

  /** Two runs of the loop fail both, or stop at the same place in alike states. */
  predicate AlikeRuns(d: Desc, p: Parsed<Loop>, q: Parsed<Loop>)
    requires WF(d) && (p.Got? ==> LoopShape(d, p.v)) && (q.Got? ==> LoopShape(d, q.v))
  {
    if p.Bad? || q.Bad? then p.Bad? && q.Bad? else p.rest == q.rest && AlikeLoop(d, p.v, q.v)
  }

  /** What the two destinations of a value must have in common: something only if it is a submessage. */
  predicate Startable(f: Field, p: Value, q: Value)
    requires WFField(f) && ShapeValue(f, p) && ShapeValue(f, q)
  {
    f.ltype.SubMessage? ==>
      if f.htype.Repeated? then SameFixed(f.ptr.desc, p.slots, q.slots) else Alike(f.ptr.desc, p.slots, q.slots)
  }

  lemma BlobsAlike(f: Field, p: bytes, q: bytes, b: bytes)
    requires f.ltype.Bytes? || f.ltype.String? || f.ltype.FixedLengthBytes?
    requires !f.ltype.Bytes? ==> |p| == |q| == f.dataSize
    ensures var r, s := DecBlob(f, p, b), DecBlob(f, q, b);
            if r.Bad? || s.Bad? then r.Bad? && s.Bad?
            else r.rest == s.rest && if f.ltype.String? then CStr(r.v) == CStr(s.v) else r.v == s.v
  {
    hide Varint32, CStr;
    if f.ltype.String? && DecBlob(f, p, b).Got? {
      var n, c := Varint32(b).v, Take(Varint32(b).v, Varint32(b).rest).v;
      CStrCut(c, p[n + 1..]);
      CStrCut(c, q[n + 1..]);
    }
  }

  /** The destination of a value that is not a submessage cannot be seen afterwards, but behind the NUL of a string. */
  lemma {:induction false} ValuesAlike(f: Field, p: Value, q: Value, b: bytes)
    requires WFField(f) && ShapeValue(f, p) && ShapeValue(f, q) && Startable(f, p, q)
    ensures AlikeParsed(f, DecValue(f, p, b), DecValue(f, q, b))
    ensures f.ltype != String && !f.ltype.SubMessage? ==> DecValue(f, p, b) == DecValue(f, q, b)
    decreases |b|, 0
  {
    hide DecScalar, DecBlob, DecNoInit, Frame, SameFixed, Alike, CStr, WF, Shape;
    if f.ltype.SubMessage? {
      if Frame(b).Got? {
        var d := f.ptr.desc;
        if f.htype.Repeated? {
          DefaultsAlike(d, p.slots, q.slots);
          MessagesAlike(d, Frame(b).v, DefaultMessage(d, p.slots), DefaultMessage(d, q.slots));
        } else {
          MessagesAlike(d, Frame(b).v, p.slots, q.slots);
        }
      }
    } else if !Packable(f.ltype) {
      BlobsAlike(f, p.b, q.b, b);
    }
  }

  lemma {:induction false} PackedAlike(f: Field, b: bytes, a: seq<Value>, c: seq<Value>, size: nat)
    requires Packable(f.ltype) && WFType(f) && size <= |a| == |c|
    requires forall j | 0 <= j < |a| :: ShapeValue(f, a[j]) && ShapeValue(f, c[j])
    ensures var p, q := DecPacked(f, b, a, size), DecPacked(f, b, c, size);
            (p.Some? <==> q.Some?) &&
            (p.Some? ==>
              p.value.1 == q.value.1 &&
              forall j | 0 <= j < |a| ::
                if size <= j < p.value.1 then p.value.0[j] == q.value.0[j]
                else p.value.0[j] == a[j] && q.value.0[j] == c[j])
    decreases |b|
  {
    hide DecScalar, WFType, ShapeValue;
    if b != [] && size < |a| {
      var r := DecScalar(f, b);
      if r.Got? {
        PackedAlike(f, r.rest, a[size := Int(r.v)], c[size := Int(r.v)], size + 1);
      }
    }
  }

  /** Alike slots stored in alike structs. */
  lemma UpdateAlike(d: Desc, a: seq<Slot>, b: seq<Slot>, i: nat, s: Slot, t: Slot)
    requires WF(d) && Shape(d, a) && Shape(d, b) && Alike(d, a, b) && i < |d.fields| && WFField(d.fields[i])
    requires ShapeSlot(d.fields[i], s) && ShapeSlot(d.fields[i], t) && AlikeSlot(d.fields[i], s, t)
    requires d.fields[i].htype.OneOf? ==> s.which == t.which == d.fields[i].tag
    ensures var k := SlotOf(d.fields, i);
            Shape(d, a[k := s]) && Shape(d, b[k := t]) && Alike(d, a[k := s], b[k := t])
  {
    hide AlikeValue, SameFixedValue, ShapeValue;
    var k := SlotOf(d.fields, i);
    ShapeUpdate(d, a, i, s);
    ShapeUpdate(d, b, i, t);
    forall j | 0 <= j < |d.fields| ensures AlikeSlot(d.fields[j], SlotAt(d, a[k := s], j), SlotAt(d, b[k := t], j)) {
      assert AlikeSlot(d.fields[j], SlotAt(d, a, j), SlotAt(d, b, j));
      if SlotOf(d.fields, j) == k && j != i {
        assert d.fields[i].tag != d.fields[j].tag;
        assert d.fields[i].htype.OneOf? && d.fields[j].htype.OneOf?;
      }
    }
  }

  lemma AlikeAt(d: Desc, a: seq<Slot>, b: seq<Slot>, i: nat)
    requires WF(d) && Shape(d, a) && Shape(d, b) && Alike(d, a, b) && i < |d.fields|
    ensures WFField(d.fields[i]) && AlikeSlot(d.fields[i], SlotAt(d, a, i), SlotAt(d, b, i))
  {
  }

  lemma AlikeStart(f: Field, s: Slot, t: Slot)
    requires WFField(f) && ShapeSlot(f, s) && ShapeSlot(f, t) && AlikeSlot(f, s, t)
    ensures f.htype.OneOf? ==> Startable(f, UnionStart(f, s), UnionStart(f, t))
    ensures !f.htype.OneOf? && !f.htype.Repeated? ==> Startable(f, s.v, t.v)
    ensures f.htype.Repeated? ==> forall j | 0 <= j < f.arraySize :: Startable(f, s.items[j], t.items[j])
  {
    hide Alike, SameFixed, DefaultValue, ZeroValue;
    if f.htype.OneOf? && f.ltype.SubMessage? {
      AlikeItself(f.ptr.desc, UnionStart(f, s).slots);
    }
  }

  lemma PutItemsAlike(d: Desc, i: nat, a: seq<Value>, c: seq<Value>, size: nat, s: Loop, t: Loop)
    requires WF(d) && LoopShape(d, s) && LoopShape(d, t) && AlikeLoop(d, s, t)
    requires i < |d.fields| && d.fields[i].htype.Repeated? && WFField(d.fields[i])
    requires FixedCount(d.fields[i]) ==> s.fixed == i
    requires |a| == |c| == d.fields[i].arraySize >= size
    requires forall j | 0 <= j < |a| :: ShapeValue(d.fields[i], a[j]) && ShapeValue(d.fields[i], c[j])
    requires forall j | 0 <= j < |a| :: SameFixedValue(d.fields[i], a[j], c[j])
    requires forall j | 0 <= j < |a| && (FixedCount(d.fields[i]) || j < size) :: AlikeValue(d.fields[i], a[j], c[j])
    ensures AlikeLoop(d, PutItems(d, i, a, size, s), PutItems(d, i, c, size, t))
  {
    hide Alike, WF, Shape, WFField, ShapeValue, AlikeValue, SameFixedValue;
    var fixedCount := FixedCount(d.fields[i]);
    UpdateAlike(d, s.m, t.m, i, Rep(if fixedCount then SlotAt(d, s.m, i).count else size, a),
                                Rep(if fixedCount then SlotAt(d, t.m, i).count else size, c));
  }

  lemma {:induction false} ItemAlike(d: Desc, i: nat, b: bytes, s: Loop, t: Loop)
    requires WF(d) && LoopShape(d, s) && LoopShape(d, t) && AlikeLoop(d, s, t)
    requires i < |d.fields| && d.fields[i].htype.Repeated? && (FixedCount(d.fields[i]) ==> s.fixed == i)
    ensures AlikeRuns(d, DecItem(d, i, b, s), DecItem(d, i, b, t))
    decreases |b|, 1
  {
    hide DecValue, Alike, WF, Shape, WFField, ShapeValue, AlikeValue, SameFixedValue, Startable;
    AlikeAt(d, s.m, t.m, i);
    var f, x, y, size := d.fields[i], SlotAt(d, s.m, i), SlotAt(d, t.m, i), SizeAt(d, s, i);
    if size < f.arraySize {
      AlikeStart(f, x, y);
      ValuesAlike(f, x.items[size], y.items[size], b);
      var p, q := DecValue(f, x.items[size], b), DecValue(f, y.items[size], b);
      if p.Got? {
        AlikeValueKeepsFixed(f, p.v, q.v);
        PutItemsAlike(d, i, x.items[size := p.v], y.items[size := q.v], size + 1, s, t);
      }
    }
  }

  lemma PackedFieldAlike(d: Desc, i: nat, b: bytes, s: Loop, t: Loop)
    requires WF(d) && LoopShape(d, s) && LoopShape(d, t) && AlikeLoop(d, s, t) && i < |d.fields|
    requires d.fields[i].htype.Repeated? && Packable(d.fields[i].ltype) && (FixedCount(d.fields[i]) ==> s.fixed == i)
    ensures AlikeRuns(d, DecPackedField(d, i, b, s), DecPackedField(d, i, b, t))
  {
    hide DecPacked, Frame, Alike, WF, Shape, ShapeValue;
    AlikeAt(d, s.m, t.m, i);
    var f, x, y, size := d.fields[i], SlotAt(d, s.m, i), SlotAt(d, t.m, i), SizeAt(d, s, i);
    if Frame(b).Got? && size <= f.arraySize {
      var body := Frame(b).v;
      PackedAlike(f, body, x.items, y.items, size);
      var p, q := DecPacked(f, body, x.items, size), DecPacked(f, body, y.items, size);
      if p.Some? {
        PutItemsAlike(d, i, p.value.0, q.value.0, p.value.1, s, t);
      }
    }
  }

  lemma {:induction false} FieldAlike(d: Desc, i: nat, wt: nat, b: bytes, s: Loop, t: Loop)
    requires WF(d) && LoopShape(d, s) && LoopShape(d, t) && AlikeLoop(d, s, t)
    requires i < |d.fields| && (FixedCount(d.fields[i]) ==> s.fixed == i)
    ensures AlikeRuns(d, DecField(d, i, wt, b, s), DecField(d, i, wt, b, t))
    decreases |b|, 2
  {
    hide DecValue, DecPackedField, DecItem, Alike, WF, Shape, WFField, ShapeValue, AlikeValue, SameFixedValue, Startable, UnionStart;
    AlikeAt(d, s.m, t.m, i);
    var f, x, y := d.fields[i], SlotAt(d, s.m, i), SlotAt(d, t.m, i);
    if f.htype.Repeated? {
      if wt == WT_STRING && Packable(f.ltype) {
        PackedFieldAlike(d, i, b, s, t);
      } else {
        ItemAlike(d, i, b, s, t);
      }
    } else {
      AlikeStart(f, x, y);
      var u, w := if f.htype.OneOf? then UnionStart(f, x) else x.v, if f.htype.OneOf? then UnionStart(f, y) else y.v;
      ValuesAlike(f, u, w, b);
      var p, q := DecValue(f, u, b), DecValue(f, w, b);
      if p.Got? {
        if f.htype.OneOf? {
          UpdateAlike(d, s.m, t.m, i, Union(f.tag, p.v), Union(f.tag, q.v));
        } else if x.Opt? {
          UpdateAlike(d, s.m, t.m, i, Opt(true, p.v), Opt(true, q.v));
        } else {
          UpdateAlike(d, s.m, t.m, i, Single(p.v), Single(q.v));
        }
      }
    }
  }

  /**
    Whatever the old bytes of a union read as when a new member is decoded over them (here any value v
    instead of UnionStart), the loop goes on in an alike state.
   */
  lemma UnionContentUnseen(d: Desc, i: nat, v: Value, wt: nat, b: bytes, st: Loop)
    requires WF(d) && LoopShape(d, st) && i < |d.fields| && WFField(d.fields[i])
    requires d.fields[i].htype.OneOf? && !d.fields[i].ltype.SubMessage? && ShapeValue(d.fields[i], v)
    ensures var p := DecValue(d.fields[i], v, b);
            AlikeRuns(d, if p.Bad? then Bad else Got(PutSlot(d, i, Union(d.fields[i].tag, p.v), st), p.rest),
                      DecField(d, i, wt, b, st))
  {
    hide DecValue, Alike, WF, Shape, ShapeValue, AlikeValue, UnionStart;
    var f, u := d.fields[i], UnionStart(d.fields[i], SlotAt(d, st.m, i));
    ValuesAlike(f, v, u, b);
    var p, q := DecValue(f, v, b), DecValue(f, u, b);
    if p.Got? {
      AlikeItself(d, st.m);
      UpdateAlike(d, st.m, st.m, i, Union(f.tag, p.v), Union(f.tag, q.v));
    }
  }

  /** Decoding the same bytes in alike states: the same verdict, the same rest, alike states. */
  lemma {:induction false} LoopAlike(d: Desc, b: bytes, s: Loop, t: Loop)
    requires WF(d) && LoopShape(d, s) && LoopShape(d, t) && AlikeLoop(d, s, t)
    ensures AlikeRuns(d, DecLoop(d, b, s), DecLoop(d, b, t))
    decreases |b|, 3
  {
    hide DecField, DecTag, Alike, WF, Shape, Skip, FindTag;
    if b != [] && DecTag(b).TagOk? {
      var tag, wt, rest := DecTag(b).tag, DecTag(b).wt, DecTag(b).rest;
      var i := FindTag(d.fields, tag);
      if i >= 0 && Enter(d, i, s).Some? {
        FieldAlike(d, i, wt, rest, Enter(d, i, s).value, Enter(d, i, t).value);
      }
      var p, q := DecStep(d, tag, wt, rest, s), DecStep(d, tag, wt, rest, t);
      if p.Got? {
        LoopAlike(d, p.rest, p.v, q.v);
      }
    }
  }

  lemma {:induction false} MessagesAlike(d: Desc, b: bytes, a: seq<Slot>, c: seq<Slot>)
    requires WF(d) && Shape(d, a) && Shape(d, c) && Alike(d, a, c)
    ensures var p, q := DecNoInit(d, b, a), DecNoInit(d, b, c);
            if p.Bad? || q.Bad? then p.Bad? && q.Bad? else p.rest == q.rest && Alike(d, p.v, q.v)
    decreases |b|, 4
  {
    hide DecLoop, Alike, WF, Shape;
    LoopAlike(d, b, Start(a), Start(c));
  }

  /**
    pb_decode does not depend on what the struct held before, but for items of fixed-count arrays:
    the same verdict, the same bytes left, the same message.
   */
  lemma DecodeIgnoresContent(d: Desc, b: bytes, a: seq<Slot>, c: seq<Slot>)
    requires WF(d) && Shape(d, a) && Shape(d, c) && (NoFixedAnywhere(d) || SameFixed(d, a, c))
    ensures var p, q := Decode(d, b, a), Decode(d, b, c);
            if p.Bad? || q.Bad? then p.Bad? && q.Bad? else p.rest == q.rest && Same(d, p.v, q.v)
  {
    hide DecNoInit, Alike, Same, SameFixed, NoFixedAnywhere, WF, Shape, DefaultMessage;
    if NoFixedAnywhere(d) {
      NothingFixed(d, a, c);
    }
    DefaultsAlike(d, a, c);
    MessagesAlike(d, b, DefaultMessage(d, a), DefaultMessage(d, c));
    var p, q := Decode(d, b, a), Decode(d, b, c);
    if p.Got? {
      AlikeIsSame(d, p.v, q.v);
    }
  }
}
