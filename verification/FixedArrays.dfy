/**
  Arrays without a count variable: the field loop counts the items of one of them at a time. Which sequences
  of records it lets through.
 */
module FixedArrays {
  import opened Basics
  import opened Message
  import opened EncodeSpec
  import opened DecodeSpec
  import opened RoundTrip
  import opened Merge

  /** How many integers are packed into b. */
  function CountPacked(f: Field, b: bytes): nat
    requires Packable(f.ltype) && WFType(f)
    decreases |b|
  {
    if b == [] || DecScalar(f, b).Bad? then 0 else 1 + CountPacked(f, DecScalar(f, b).rest)
  }

  /** How many items one record brings. */
  function ItemsIn(f: Field, wt: nat, b: bytes): nat
    requires WFField(f)
  {
    if wt == 2 && Packable(f.ltype) && Frame(b).Got? then CountPacked(f, Frame(b).v) else 1
  }

  /** The records of fixed-count arrays that the loop reads: entry and number of items. */
  function FixedRecords(d: Desc, b: bytes, st: Loop): seq<(nat, nat)>
    requires WF(d) && LoopShape(d, st)
    decreases |b|
  {
    if b == [] then []
    else
      var t := DecTag(b);
      if !t.TagOk? then []
      else
        var s := DecStep(d, t.tag, t.wt, t.rest, st);
        if s.Bad? then []
        else FixedRecord(d, t.tag, t.wt, t.rest) + FixedRecords(d, s.rest, s.v)
  }

  function FixedRecord(d: Desc, tag: nat, wt: nat, b: bytes): seq<(nat, nat)>
    requires WF(d)
  {
    var i := FindTag(d.fields, tag);
    if i >= 0 && FixedCount(d.fields[i]) then [(i, ItemsIn(d.fields[i], wt, b))] else []
  }

  /**
    Records of the same array in a row, with nothing of another such array between them, bring exactly
    its items; c items of array k (-1 for none) came before.
   */
  predicate Complete(d: Desc, es: seq<(nat, nat)>, k: int, c: nat) {
    if es == [] then 0 <= k < |d.fields| ==> c == d.fields[k].arraySize
    else if es[0].0 == k then Complete(d, es[1..], k, c + es[0].1)
    else (0 <= k < |d.fields| ==> c == d.fields[k].arraySize) && Complete(d, es[1..], es[0].0, es[0].1)
  }

  lemma {:induction false} PackedCount(f: Field, b: bytes, items: seq<Value>, size: nat)
    requires Packable(f.ltype) && WFType(f)
    requires size <= |items| && forall j | 0 <= j < |items| :: ShapeValue(f, items[j])
    requires DecPacked(f, b, items, size).Some?
    ensures DecPacked(f, b, items, size).value.1 == size + CountPacked(f, b)
    decreases |b|
  {
    hide DecScalar, WFType, ShapeValue;
    if b != [] {
      var r := DecScalar(f, b);
      PackedCount(f, r.rest, items[size := Int(r.v)], size + 1);
    }
  }

  lemma FixedFieldCounts(d: Desc, i: nat, wt: nat, b: bytes, st: Loop)
    requires WF(d) && LoopShape(d, st) && i < |d.fields| && WFField(d.fields[i])
    requires FixedCount(d.fields[i]) && st.fixed == i && DecField(d, i, wt, b, st).Got?
    ensures DecField(d, i, wt, b, st).v.fixed == i
    ensures DecField(d, i, wt, b, st).v.fixedSize == st.fixedSize + ItemsIn(d.fields[i], wt, b)
  {
    hide DecValue, DecPacked, Frame, PutSlot, WF, Shape, ShapeValue, SlotOf, CountPacked;
    var f, s := d.fields[i], SlotAt(d, st.m, i);
    if wt == WT_STRING && Packable(f.ltype) {
      PackedCount(f, Frame(b).v, s.items, st.fixedSize);
    }
  }

  /** A record of a fixed-count array is refused while another one is incomplete. */
  lemma SwitchRefused(d: Desc, k: nat, wt: nat, y: bytes, st: Loop)
    requires WF(d) && LoopShape(d, st) && k < |d.fields| && FixedCount(d.fields[k]) && wt < 8
    requires st.fixed >= 0 && st.fixed != k && st.fixedSize < d.fields[st.fixed].arraySize
    ensures DecLoop(d, Tag(wt, d.fields[k].tag) + y, st) == Bad
  {
    hide DecLoop, WF, Shape, Tag, FindTag;
    LoopStep(d, k, wt, y, st);
  }

  /** What one step does to the count. */
  lemma StepCounts(d: Desc, tag: nat, wt: nat, b: bytes, st: Loop)
    requires WF(d) && LoopShape(d, st) && DecStep(d, tag, wt, b, st).Got?
    ensures var r, es := DecStep(d, tag, wt, b, st).v, FixedRecord(d, tag, wt, b);
            if es == [] then r.fixed == st.fixed && r.fixedSize == st.fixedSize
            else
              |es| == 1 && r.fixed == es[0].0 &&
              if st.fixed == es[0].0 then r.fixedSize == st.fixedSize + es[0].1
              else FixedDone(d, st) && r.fixedSize == es[0].1
  {
    hide DecField, Skip, FindTag, ItemsIn, WF, Shape;
    var i := FindTag(d.fields, tag);
    if i >= 0 {
      var st1 := Enter(d, i, st).value;
      if FixedCount(d.fields[i]) {
        EntryIs(d, i);
        FixedFieldCounts(d, i, wt, b, st1);
      } else {
        FieldIgnoresSeen(d, i, wt, b, st1, {});
      }
    }
  }

  lemma EntryIs(d: Desc, i: nat)
    requires WF(d) && i < |d.fields|
    ensures WFField(d.fields[i])
  {
  }

  /**
    The loop gets through with its last fixed-count array complete exactly if every such array came
    complete, in one run of records, as often as it came at all.
   */
  lemma {:induction false} FixedArraysComplete(d: Desc, b: bytes, st: Loop)
    requires WF(d) && LoopShape(d, st) && DecLoop(d, b, st).Got?
    ensures FixedDone(d, DecLoop(d, b, st).v) <==> Complete(d, FixedRecords(d, b, st), st.fixed, st.fixedSize)
    decreases |b|
  {
    hide DecStep, DecTag, FixedRecord, WF, Shape;
    if b != [] && DecTag(b).TagOk? {
      var t := DecTag(b);
      var s := DecStep(d, t.tag, t.wt, t.rest, st);
      var es, more := FixedRecord(d, t.tag, t.wt, t.rest), FixedRecords(d, s.rest, s.v);
      StepCounts(d, t.tag, t.wt, t.rest, st);
      FixedArraysComplete(d, s.rest, s.v);
      if es == [] {
        assert es + more == more;
      } else {
        assert (es + more)[0] == es[0] && (es + more)[1..] == more;
      }
    }
  }
}
