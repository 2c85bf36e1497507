/** Repeated fields append: decoding into a struct puts the items received behind the ones that are there. */
module Append {
  import opened Basics
  import opened Message
  import opened EncodeSpec
  import opened DecodeSpec
  import opened Independence

  /** Entry k is an array with a count variable; its items do not contain fixed-count arrays. */
  predicate Counted(d: Desc, k: nat)
    requires WF(d)
  {
    k < |d.fields| && d.fields[k].htype.Repeated? && !FixedCount(d.fields[k]) && WFField(d.fields[k]) &&
    (d.fields[k].ltype.SubMessage? ==> NoFixedAnywhere(d.fields[k].ptr.desc))
  }

  /** Array k of s holds n items and then items like those of array k of t. */
  predicate Behind(d: Desc, k: nat, n: nat, s: seq<Slot>, t: seq<Slot>)
    requires WF(d) && Shape(d, s) && Shape(d, t) && Counted(d, k)
  {
    var f, x, y := d.fields[k], SlotAt(d, s, k), SlotAt(d, t, k);
    x.count == n + y.count <= f.arraySize &&
    forall j | 0 <= j < y.count :: AlikeValue(f, x.items[n + j], y.items[j])
  }

  /** Two states of the loop at the same point of a byte string. */
  predicate InStep(d: Desc, k: nat, n: nat, s: Loop, t: Loop)
    requires WF(d) && LoopShape(d, s) && LoopShape(d, t) && Counted(d, k)
  {
    Behind(d, k, n, s.m, t.m) && s.(m := t.m) == t
  }

  // ---------- How much is read does not depend on the struct ----------

  lemma ValueRest(f: Field, p: Value, q: Value, b: bytes)
    requires WFField(f) && ShapeValue(f, p) && ShapeValue(f, q) && DecValue(f, p, b).Got? && DecValue(f, q, b).Got?
    ensures DecValue(f, p, b).rest == DecValue(f, q, b).rest
  {
    hide DecScalar, DecBlob, DecNoInit, Frame, WF, Shape;
    if !Packable(f.ltype) && !f.ltype.SubMessage? {
      BlobsAlike(f, p.b, q.b, b);
    }
  }

  /** The same integers, received behind sa items or behind sc. */
  lemma {:induction false} PackedBehind(f: Field, b: bytes, a: seq<Value>, sa: nat, c: seq<Value>, sc: nat)
    requires Packable(f.ltype) && WFType(f) && sa <= |a| && sc <= |c|
    requires forall j | 0 <= j < |a| :: ShapeValue(f, a[j])
    requires forall j | 0 <= j < |c| :: ShapeValue(f, c[j])
    requires DecPacked(f, b, a, sa).Some? && DecPacked(f, b, c, sc).Some?
    ensures var p, q := DecPacked(f, b, a, sa).value, DecPacked(f, b, c, sc).value;
            p.0[sa..p.1] == q.0[sc..q.1] && p.0[..sa] == a[..sa] && q.0[..sc] == c[..sc]
    decreases |b|
  {
    hide DecScalar, WFType, ShapeValue;
    if b != [] {
      var r := DecScalar(f, b);
      var a1, c1 := a[sa := Int(r.v)], c[sc := Int(r.v)];
      PackedBehind(f, r.rest, a1, sa + 1, c1, sc + 1);
      var (a', sa') := DecPacked(f, r.rest, a1, sa + 1).value;
      var (c', sc') := DecPacked(f, r.rest, c1, sc + 1).value;
      assert a'[..sa] == a'[..sa + 1][..sa] == a[..sa] && c'[..sc] == c'[..sc + 1][..sc] == c[..sc];
      assert a'[sa] == a'[..sa + 1][sa] == c'[..sc + 1][sc] == c'[sc];
      assert a'[sa..sa'] == [a'[sa]] + a'[sa + 1..sa'] && c'[sc..sc'] == [c'[sc]] + c'[sc + 1..sc'];
    }
  }

  lemma PutSize(d: Desc, i: nat, items: seq<Value>, size: nat, s: Loop)
    requires WF(d) && LoopShape(d, s) && i < |d.fields| && d.fields[i].htype.Repeated?
    requires (FixedCount(d.fields[i]) ==> s.fixed == i) && |items| == d.fields[i].arraySize >= size
    requires forall j | 0 <= j < |items| :: ShapeValue(d.fields[i], items[j])
    ensures PutItems(d, i, items, size, s).fixedSize == if FixedCount(d.fields[i]) then size else s.fixedSize
  {
    hide PutSlot, WF, Shape, ShapeValue;
  }

  lemma ItemReads(d: Desc, i: nat, b: bytes, s: Loop)
    requires WF(d) && LoopShape(d, s) && i < |d.fields| && WFField(d.fields[i])
    requires d.fields[i].htype.Repeated? && (FixedCount(d.fields[i]) ==> s.fixed == i) && DecItem(d, i, b, s).Got?
    ensures var f, x, r := d.fields[i], SlotAt(d, s.m, i), DecItem(d, i, b, s);
            SizeAt(d, s, i) < f.arraySize && DecValue(f, x.items[SizeAt(d, s, i)], b).Got? &&
            r.rest == DecValue(f, x.items[SizeAt(d, s, i)], b).rest &&
            r.v.fixedSize == if FixedCount(f) then s.fixedSize + 1 else s.fixedSize
  {
    hide DecValue, PutItems, WF, Shape, ShapeValue, SlotOf;
    var x, size := SlotAt(d, s.m, i), SizeAt(d, s, i);
    PutSize(d, i, x.items[size := DecValue(d.fields[i], x.items[size], b).v], size + 1, s);
  }

  lemma ItemRest(d: Desc, i: nat, b: bytes, s: Loop, t: Loop)
    requires WF(d) && LoopShape(d, s) && LoopShape(d, t) && s.(m := t.m) == t
    requires i < |d.fields| && WFField(d.fields[i]) && (FixedCount(d.fields[i]) ==> s.fixed == i)
    requires d.fields[i].htype.Repeated? && DecItem(d, i, b, s).Got? && DecItem(d, i, b, t).Got?
    ensures DecItem(d, i, b, s).rest == DecItem(d, i, b, t).rest
    ensures DecItem(d, i, b, s).v.fixedSize == DecItem(d, i, b, t).v.fixedSize
  {
    hide DecItem, DecValue, WF, Shape, ShapeValue, SlotOf, SizeAt;
    ItemReads(d, i, b, s);
    ItemReads(d, i, b, t);
    ValueRest(d.fields[i], SlotAt(d, s.m, i).items[SizeAt(d, s, i)], SlotAt(d, t.m, i).items[SizeAt(d, t, i)], b);
  }

  lemma RecordRest(d: Desc, i: nat, b: bytes, s: Loop, t: Loop)
    requires WF(d) && LoopShape(d, s) && LoopShape(d, t) && s.(m := t.m) == t
    requires i < |d.fields| && WFField(d.fields[i]) && (FixedCount(d.fields[i]) ==> s.fixed == i)
    requires d.fields[i].htype.Repeated? && Packable(d.fields[i].ltype)
    requires DecPackedField(d, i, b, s).Got? && DecPackedField(d, i, b, t).Got?
    ensures DecPackedField(d, i, b, s).rest == DecPackedField(d, i, b, t).rest
    ensures DecPackedField(d, i, b, s).v.fixedSize == DecPackedField(d, i, b, t).v.fixedSize
  {
    hide DecPacked, Frame, PutItems, WF, Shape, ShapeValue, SlotOf;
    var f, x, y, sa, sc := d.fields[i], SlotAt(d, s.m, i), SlotAt(d, t.m, i), SizeAt(d, s, i), SizeAt(d, t, i);
    var body := Frame(b).v;
    if sa <= f.arraySize {
      var p := DecPacked(f, body, x.items, sa).value;
      PutSize(d, i, p.0, p.1, s);
    }
    if sc <= f.arraySize {
      var q := DecPacked(f, body, y.items, sc).value;
      PutSize(d, i, q.0, q.1, t);
    }
    if FixedCount(f) {
      PackedBehind(f, body, x.items, sa, y.items, sc);
    }
  }

  lemma FieldRest(d: Desc, i: nat, wt: nat, b: bytes, s: Loop, t: Loop)
    requires WF(d) && LoopShape(d, s) && LoopShape(d, t) && s.(m := t.m) == t
    requires i < |d.fields| && WFField(d.fields[i]) && (FixedCount(d.fields[i]) ==> s.fixed == i)
    requires DecField(d, i, wt, b, s).Got? && DecField(d, i, wt, b, t).Got?
    ensures DecField(d, i, wt, b, s).rest == DecField(d, i, wt, b, t).rest
    ensures DecField(d, i, wt, b, s).v.fixedSize == DecField(d, i, wt, b, t).v.fixedSize
  {
    hide DecValue, DecPackedField, DecItem, UnionStart, WF, Shape, ShapeValue, SlotOf;
    var f, x, y := d.fields[i], SlotAt(d, s.m, i), SlotAt(d, t.m, i);
    if f.htype.Repeated? {
      if wt == WT_STRING && Packable(f.ltype) {
        RecordRest(d, i, b, s, t);
      } else {
        ItemRest(d, i, b, s, t);
      }
    } else if f.htype.OneOf? {
      ValueRest(f, UnionStart(f, x), UnionStart(f, y), b);
    } else {
      ValueRest(f, x.v, y.v, b);
    }
  }

  /** Storing a slot for another entry. */
  lemma PutElsewhere(d: Desc, i: nat, k: nat, x: Slot, s: Loop)
    requires WF(d) && LoopShape(d, s) && Counted(d, k) && i < |d.fields| && i != k && ShapeSlot(d.fields[i], x)
    requires d.fields[i].htype.OneOf? ==> x.which == d.fields[i].tag
    ensures SlotAt(d, PutSlot(d, i, x, s).m, k) == SlotAt(d, s.m, k)
  {
    hide ShapeSlot, WF;
    assert SlotOf(d.fields, i) != SlotOf(d.fields, k);
    assert |s.m| == |d.fields|;
  }

  lemma ItemsElsewhere(d: Desc, i: nat, k: nat, items: seq<Value>, size: nat, s: Loop)
    requires WF(d) && LoopShape(d, s) && Counted(d, k) && i < |d.fields| && i != k && d.fields[i].htype.Repeated?
    requires (FixedCount(d.fields[i]) ==> s.fixed == i) && |items| == d.fields[i].arraySize >= size
    requires forall j | 0 <= j < |items| :: ShapeValue(d.fields[i], items[j])
    ensures SlotAt(d, PutItems(d, i, items, size, s).m, k) == SlotAt(d, s.m, k)
  {
    hide PutSlot, ShapeValue, WF, Shape;
    var fixedCount := FixedCount(d.fields[i]);
    PutElsewhere(d, i, k, Rep(if fixedCount then SlotAt(d, s.m, i).count else size, items),
                 if fixedCount then s.(fixedSize := size) else s);
  }

  lemma OtherSlot(d: Desc, i: nat, k: nat, wt: nat, b: bytes, s: Loop)
    requires WF(d) && LoopShape(d, s) && Counted(d, k) && i < |d.fields| && i != k && WFField(d.fields[i])
    requires (FixedCount(d.fields[i]) ==> s.fixed == i) && DecField(d, i, wt, b, s).Got?
    ensures SlotAt(d, DecField(d, i, wt, b, s).v.m, k) == SlotAt(d, s.m, k)
  {
    hide DecValue, DecPacked, Frame, UnionStart, PutSlot, PutItems, SlotOf, WF, Shape, ShapeValue;
    var f, x := d.fields[i], SlotAt(d, s.m, i);
    if f.htype.Repeated? {
      OtherArray(d, i, k, wt, b, s);
    } else if f.htype.OneOf? {
      PutElsewhere(d, i, k, Union(f.tag, DecValue(f, UnionStart(f, x), b).v), s);
    } else {
      var v := DecValue(f, x.v, b).v;
      PutElsewhere(d, i, k, if x.Opt? then Opt(true, v) else Single(v), s);
    }
  }

  lemma OtherArray(d: Desc, i: nat, k: nat, wt: nat, b: bytes, s: Loop)
    requires WF(d) && LoopShape(d, s) && Counted(d, k) && i < |d.fields| && i != k && WFField(d.fields[i])
    requires d.fields[i].htype.Repeated?
    requires (FixedCount(d.fields[i]) ==> s.fixed == i) && DecField(d, i, wt, b, s).Got?
    ensures SlotAt(d, DecField(d, i, wt, b, s).v.m, k) == SlotAt(d, s.m, k)
  {
    hide DecValue, DecPacked, Frame, PutSlot, PutItems, SlotOf, WF, Shape, ShapeValue;
    var f, x, size := d.fields[i], SlotAt(d, s.m, i), SizeAt(d, s, i);
    if !(wt == WT_STRING && Packable(f.ltype)) {
      ItemsElsewhere(d, i, k, x.items[size := DecValue(f, x.items[size], b).v], size + 1, s);
    } else if size <= f.arraySize {
      var p := DecPacked(f, Frame(b).v, x.items, size).value;
      ItemsElsewhere(d, i, k, p.0, p.1, s);
    }
  }

  /** A field that goes to another entry. */
  lemma OtherField(d: Desc, i: nat, k: nat, n: nat, wt: nat, b: bytes, s: Loop, t: Loop)
    requires WF(d) && LoopShape(d, s) && LoopShape(d, t) && Counted(d, k) && InStep(d, k, n, s, t)
    requires i < |d.fields| && i != k && WFField(d.fields[i]) && (FixedCount(d.fields[i]) ==> s.fixed == i)
    requires DecField(d, i, wt, b, s).Got? && DecField(d, i, wt, b, t).Got?
    ensures var p, q := DecField(d, i, wt, b, s), DecField(d, i, wt, b, t);
            p.rest == q.rest && InStep(d, k, n, p.v, q.v) && SlotAt(d, p.v.m, k) == SlotAt(d, s.m, k)
  {
    hide DecField, WF, Shape, ShapeValue, AlikeValue;
    FieldRest(d, i, wt, b, s, t);
    OtherSlot(d, i, k, wt, b, s);
    OtherSlot(d, i, k, wt, b, t);
  }

  lemma PutCounted(d: Desc, k: nat, items: seq<Value>, size: nat, s: Loop)
    requires WF(d) && LoopShape(d, s) && Counted(d, k) && size <= |items| == d.fields[k].arraySize
    requires forall j | 0 <= j < |items| :: ShapeValue(d.fields[k], items[j])
    ensures var r := PutItems(d, k, items, size, s);
            r.(m := s.m) == s && SlotAt(d, r.m, k) == Rep(size, items)
  {
    hide ShapeSlot, ShapeValue, WF;
    assert |s.m| == |d.fields|;
  }

  /** One more item of array k. */
  lemma ItemBehind(d: Desc, k: nat, n: nat, b: bytes, s: Loop, t: Loop)
    requires WF(d) && LoopShape(d, s) && LoopShape(d, t) && Counted(d, k) && InStep(d, k, n, s, t)
    requires DecItem(d, k, b, s).Got? && DecItem(d, k, b, t).Got?
    ensures var p, q := DecItem(d, k, b, s), DecItem(d, k, b, t);
            p.rest == q.rest && InStep(d, k, n, p.v, q.v) &&
            SlotAt(d, p.v.m, k).items[..n] == SlotAt(d, s.m, k).items[..n]
  {
    hide DecValue, PutItems, SlotOf, WF, Shape, ShapeValue, WFField, AlikeValue, NoFixedAnywhere;
    var f, x, y := d.fields[k], SlotAt(d, s.m, k), SlotAt(d, t.m, k);
    var c := y.count;
    CountedStart(d, k, x.items[n + c], y.items[c]);
    ValuesAlike(f, x.items[n + c], y.items[c], b);
    var u, w := DecValue(f, x.items[n + c], b).v, DecValue(f, y.items[c], b).v;
    PutCounted(d, k, x.items[n + c := u], n + c + 1, s);
    PutCounted(d, k, y.items[c := w], c + 1, t);
  }

  lemma CountedStart(d: Desc, k: nat, p: Value, q: Value)
    requires WF(d) && Counted(d, k) && ShapeValue(d.fields[k], p) && ShapeValue(d.fields[k], q)
    ensures Startable(d.fields[k], p, q)
  {
    hide NoFixedAnywhere, SameFixed;
    if d.fields[k].ltype.SubMessage? {
      NothingFixed(d.fields[k].ptr.desc, p.slots, q.slots);
    }
  }

  /** A packed record for array k. */
  lemma RecordBehind(d: Desc, k: nat, n: nat, b: bytes, s: Loop, t: Loop)
    requires WF(d) && LoopShape(d, s) && LoopShape(d, t) && Counted(d, k) && InStep(d, k, n, s, t)
    requires Packable(d.fields[k].ltype)
    requires DecPackedField(d, k, b, s).Got? && DecPackedField(d, k, b, t).Got?
    ensures var p, q := DecPackedField(d, k, b, s), DecPackedField(d, k, b, t);
            p.rest == q.rest && InStep(d, k, n, p.v, q.v) &&
            SlotAt(d, p.v.m, k).items[..n] == SlotAt(d, s.m, k).items[..n]
  {
    hide DecPacked, Frame, PutItems, SlotOf, WF, Shape, ShapeValue;
    var f, x, y := d.fields[k], SlotAt(d, s.m, k), SlotAt(d, t.m, k);
    var body, c := Frame(b).v, y.count;
    PackedBehind(f, body, x.items, n + c, y.items, c);
    var (a', sa') := DecPacked(f, body, x.items, n + c).value;
    var (c', sc') := DecPacked(f, body, y.items, c).value;
    PutCounted(d, k, a', sa', s);
    PutCounted(d, k, c', sc', t);
    Shifted(a', sa', x.items, c', sc', y.items, n, c);
  }

  /** Behind n + c and c old items, the same items: any of the second list is n places on in the first. */
  lemma Shifted<T>(a: seq<T>, sa: nat, x: seq<T>, b: seq<T>, sb: nat, y: seq<T>, n: nat, c: nat)
    requires n + c <= sa <= |a| == |x| && c <= sb <= |b| == |y|
    requires a[n + c..sa] == b[c..sb] && a[..n + c] == x[..n + c] && b[..c] == y[..c]
    ensures sa == n + sb && a[..n] == x[..n]
    ensures forall j | 0 <= j < sb :: if j < c then a[n + j] == x[n + j] && b[j] == y[j] else a[n + j] == b[j]
  {
    assert |a[n + c..sa]| == |b[c..sb]|;
    assert a[..n] == a[..n + c][..n];
    forall j | 0 <= j < sb ensures if j < c then a[n + j] == x[n + j] && b[j] == y[j] else a[n + j] == b[j] {
      if j < c {
        assert a[n + j] == a[..n + c][n + j] && b[j] == b[..c][j];
      } else {
        assert a[n + j] == a[n + c..sa][j - c] && b[j] == b[c..sb][j - c];
      }
    }
  }

  lemma FieldBehind(d: Desc, i: nat, k: nat, n: nat, wt: nat, b: bytes, s: Loop, t: Loop)
    requires WF(d) && LoopShape(d, s) && LoopShape(d, t) && Counted(d, k) && InStep(d, k, n, s, t)
    requires i < |d.fields| && WFField(d.fields[i]) && (FixedCount(d.fields[i]) ==> s.fixed == i)
    requires DecField(d, i, wt, b, s).Got? && DecField(d, i, wt, b, t).Got?
    ensures var p, q := DecField(d, i, wt, b, s), DecField(d, i, wt, b, t);
            p.rest == q.rest && InStep(d, k, n, p.v, q.v) &&
            SlotAt(d, p.v.m, k).items[..n] == SlotAt(d, s.m, k).items[..n]
  {
    hide DecPackedField, DecItem, WF, Shape, ShapeValue, InStep;
    if i != k {
      OtherField(d, i, k, n, wt, b, s, t);
    } else if wt == WT_STRING && Packable(d.fields[k].ltype) {
      RecordBehind(d, k, n, b, s, t);
    } else {
      ItemBehind(d, k, n, b, s, t);
    }
  }

  lemma {:induction false} LoopBehind(d: Desc, k: nat, n: nat, b: bytes, s: Loop, t: Loop)
    requires WF(d) && LoopShape(d, s) && LoopShape(d, t) && Counted(d, k) && InStep(d, k, n, s, t)
    requires DecLoop(d, b, s).Got? && DecLoop(d, b, t).Got?
    ensures var p, q := DecLoop(d, b, s), DecLoop(d, b, t);
            p.rest == q.rest && InStep(d, k, n, p.v, q.v) &&
            SlotAt(d, p.v.m, k).items[..n] == SlotAt(d, s.m, k).items[..n]
    decreases |b|
  {
    hide DecField, DecTag, WF, Shape, Skip, FindTag, Behind, Counted;
    if b != [] && DecTag(b).TagOk? {
      var tag, wt, rest := DecTag(b).tag, DecTag(b).wt, DecTag(b).rest;
      var i := FindTag(d.fields, tag);
      if i >= 0 {
        FieldOf(d, i);
        FieldBehind(d, i, k, n, wt, rest, Enter(d, i, s).value, Enter(d, i, t).value);
      }
      var p, q := DecStep(d, tag, wt, rest, s), DecStep(d, tag, wt, rest, t);
      LoopBehind(d, k, n, p.rest, p.v, q.v);
    }
  }

  lemma FieldOf(d: Desc, i: nat)
    requires WF(d) && i < |d.fields|
    ensures WFField(d.fields[i])
  {
  }

  /**
    Decoding b into a struct m leaves the items of every counted array where they are and puts behind
    them the items that decoding b alone gives.
   */
  lemma RepeatedFieldsAppend(d: Desc, k: nat, b: bytes, m: seq<Slot>, junk: seq<Slot>)
    requires WF(d) && Shape(d, m) && Shape(d, junk) && Counted(d, k)
    requires SlotAt(d, m, k).count <= d.fields[k].arraySize
    requires DecNoInit(d, b, m).Got? && Decode(d, b, junk).Got?
    ensures var f, before, both, alone :=
              d.fields[k], SlotAt(d, m, k), SlotAt(d, DecNoInit(d, b, m).v, k), SlotAt(d, Decode(d, b, junk).v, k);
            && both.count == before.count + alone.count <= f.arraySize
            && both.items[..before.count] == before.items[..before.count]
            && forall j | 0 <= j < alone.count :: AlikeValue(f, both.items[before.count + j], alone.items[j])
  {
    hide DecLoop, WF, Shape, AlikeValue;
    DefaultsEmpty(d, k, junk);
    LoopBehind(d, k, SlotAt(d, m, k).count, b, Start(m), Start(DefaultMessage(d, junk)));
  }

  lemma DefaultsEmpty(d: Desc, k: nat, m: seq<Slot>)
    requires WF(d) && Shape(d, m) && Counted(d, k)
    ensures SlotAt(d, DefaultMessage(d, m), k).count == 0
  {
    assert SlotOf(d.fields, k) == k;
  }
}
