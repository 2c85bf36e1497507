/**
  The round trip: decoding what the encoder wrote gives the same message back, for every
  descriptor tree and every struct, exactly when its strings are terminated.
 */
module RoundTrip {
  import opened Basics
  import opened Varint
  import opened Message
  import opened EncodeSpec
  import opened DecodeSpec
  import opened Logical
  import opened RoundTripItems

  // ---------- How far the decoder has come ----------

  /** Entry j while the loop has decoded the first k entries of m into a default struct. */
  predicate FieldReached(d: Desc, m: seq<Slot>, k: nat, st: Loop, j: nat)
    requires WF(d) && Shape(d, m) && LoopShape(d, st) && j < |d.fields|
  {
    var f, s, t := d.fields[j], SlotAt(d, st.m, j), SlotAt(d, m, j);
    (if j < k then SameSlot(f, s, t) else !f.htype.OneOf? ==> DefSlot(f, s)) &&
    (f.htype.OneOf? ==> s.which in {0, t.which}) &&
    (j < k && f.htype.Required? && RequiredBefore(d.fields, j) < PB_MAX_REQUIRED_FIELDS ==>
      RequiredBefore(d.fields, j) in st.seen)
  }

  predicate Reached(d: Desc, m: seq<Slot>, k: nat, st: Loop)
    requires WF(d) && Shape(d, m) && LoopShape(d, st)
  {
    k <= |d.fields| && !st.ended && st.fixed < k && FixedDone(d, st) &&
    forall j | 0 <= j < |d.fields| :: FieldReached(d, m, k, st, j)
  }

  lemma ReachedStart(d: Desc, m: seq<Slot>, start: seq<Slot>)
    requires WF(d) && Shape(d, m) && Shape(d, start) && Def(d, start)
    ensures Reached(d, m, 0, Start(start))
  {
    forall j | 0 <= j < |d.fields| ensures FieldReached(d, m, 0, Start(start), j) {
      assert DefSlot(d.fields[j], SlotAt(d, start, j));
    }
  }

  /** Storing the right content in the slot of entry k moves the loop past it. */
  lemma ReachedPut(d: Desc, m: seq<Slot>, k: nat, st: Loop, s: Slot, st': Loop)
    requires WF(d) && Shape(d, m) && LoopShape(d, st) && LoopShape(d, st') && k < |d.fields|
    requires forall j | 0 <= j < |d.fields| && j != k :: FieldReached(d, m, k, st, j)
    requires ShapeSlot(d.fields[k], s) && SameSlot(d.fields[k], s, SlotAt(d, m, k))
    requires d.fields[k].htype.OneOf? ==> s.which == d.fields[k].tag == SlotAt(d, m, k).which
    requires st'.m == st.m[SlotOf(d.fields, k) := s] && st.seen <= st'.seen
    requires !st'.ended && st'.fixed <= k && FixedDone(d, st')
    requires d.fields[k].htype.Required? && RequiredBefore(d.fields, k) < PB_MAX_REQUIRED_FIELDS ==>
               RequiredBefore(d.fields, k) in st'.seen
    ensures Reached(d, m, k + 1, st')
  {
    var k' := k + 1;
    forall j | 0 <= j < |d.fields| ensures FieldReached(d, m, k', st', j) {
      if j != k {
        assert FieldReached(d, m, k, st, j);
        if SlotOf(d.fields, j) == SlotOf(d.fields, k) {
          assert d.fields[j].tag != d.fields[k].tag;
        }
      }
    }
  }

  /** The encoder writes nothing for this slot. */
  predicate Absent(f: Field, s: Slot)
    requires WFField(f) && ShapeSlot(f, s)
  {
    match s
    case Single(v) => Singular(f) && DefaultItem(f, v)
    case Opt(has, _) => !has
    case Rep(_, _) => ItemCount(f, s) == 0
    case Union(which, _) => which != f.tag
  }

  /** An entry that is not encoded is already right. */
  lemma ReachedAbsent(d: Desc, m: seq<Slot>, k: nat, st: Loop)
    requires WF(d) && Shape(d, m) && LoopShape(d, st) && k < |d.fields| && Reached(d, m, k, st)
    requires Absent(d.fields[k], SlotAt(d, m, k))
    ensures Reached(d, m, k + 1, st)
  {
    hide WF, Shape, WFField, ShapeSlot, SameSlot, DefaultItem, ItemCount, FixedDone, LoopShape;
    AbsentHere(d, m, k, st);
    var k' := k + 1;
    forall j | 0 <= j < |d.fields| ensures FieldReached(d, m, k', st, j) {
      AbsentElsewhere(d, m, k, st, j);
    }
  }

  lemma AbsentHere(d: Desc, m: seq<Slot>, k: nat, st: Loop)
    requires WF(d) && Shape(d, m) && LoopShape(d, st) && k < |d.fields| && FieldReached(d, m, k, st, k)
    requires Absent(d.fields[k], SlotAt(d, m, k))
    ensures SameSlot(d.fields[k], SlotAt(d, st.m, k), SlotAt(d, m, k))
  {
    hide WF, Shape, ShapeSlot, SameSlot, DefaultItem;
    AbsentSame(d.fields[k], SlotAt(d, st.m, k), SlotAt(d, m, k));
  }

  lemma AbsentElsewhere(d: Desc, m: seq<Slot>, k: nat, st: Loop, j: nat)
    requires WF(d) && Shape(d, m) && LoopShape(d, st) && k < |d.fields| && j < |d.fields|
    requires FieldReached(d, m, k, st, j)
    requires Absent(d.fields[k], SlotAt(d, m, k)) && SameSlot(d.fields[k], SlotAt(d, st.m, k), SlotAt(d, m, k))
    ensures FieldReached(d, m, k + 1, st, j)
  {
    hide SameSlot, DefSlot, DefaultItem, WF, Shape, WFField, ShapeValue;
  }

  lemma AbsentSame(f: Field, s: Slot, t: Slot)
    requires WFField(f) && ShapeSlot(f, s) && ShapeSlot(f, t) && Absent(f, t)
    requires if f.htype.OneOf? then s.which in {0, t.which} else DefSlot(f, s)
    ensures SameSlot(f, s, t)
  {
    hide DefaultItem, SameValue, DefValue;
    if t.Single? {
      OmittedItem(f, t.v, s.v);
    }
  }

  // ---------- One step of the loop ----------

  lemma {:induction false} FindTagUnique(fs: seq<Field>, k: nat)
    requires k < |fs| && forall i, j | 0 <= i < j < |fs| :: fs[i].tag != fs[j].tag
    ensures FindTag(fs, fs[k].tag) == k
  {
    var n := |fs| - 1;
    if k < n {
      assert fs[..n][k] == fs[k];
      FindTagUnique(fs[..n], k);
    }
  }

  /** A record that starts with the tag of entry k is decoded by one step. */
  lemma LoopStep(d: Desc, k: nat, wt: nat, y: bytes, st: Loop)
    requires WF(d) && LoopShape(d, st) && k < |d.fields| && wt < 8
    ensures FindTag(d.fields, d.fields[k].tag) == k
    ensures DecLoop(d, Tag(wt, d.fields[k].tag) + y, st) ==
            match DecStep(d, d.fields[k].tag, wt, y, st)
            case Bad => Bad
            case Got(st', rest) => DecLoop(d, rest, st')
  {
    hide DecTag, Tag, DecStep;
    assert WFField(d.fields[k]);
    FindTagUnique(d.fields, k);
    TagRoundTrip(wt, d.fields[k].tag, y);
  }

  /** The slot of a field that is not repeated after a value for it was received. */
  function Filled(f: Field, v: Value): Slot {
    if f.htype.OneOf? then Union(f.tag, v) else if f.htype.Required? || Singular(f) then Single(v) else Opt(true, v)
  }

  /** What a field that is not repeated holds before its value is received. */
  function Before(f: Field, s: Slot): (v: Value)
    requires WFField(f) && ShapeSlot(f, s) && !f.htype.Repeated?
    ensures ShapeValue(f, v)
  {
    if f.htype.OneOf? then UnionStart(f, s) else s.v
  }

  /** The loop after a value for entry k, which is not repeated, was received. */
  function Fill(d: Desc, k: nat, v: Value, st: Loop): (r: Loop)
    requires WF(d) && LoopShape(d, st) && k < |d.fields| && !d.fields[k].htype.Repeated?
    requires ShapeValue(d.fields[k], v)
    ensures LoopShape(d, r) && r.(m := st.m, seen := st.seen) == st
    ensures r.m == st.m[SlotOf(d.fields, k) := Filled(d.fields[k], v)]
  {
    var f := d.fields[k];
    var seen := if f.htype.Required? && RequiredBefore(d.fields, k) < PB_MAX_REQUIRED_FIELDS
                then st.seen + {RequiredBefore(d.fields, k)} else st.seen;
    ShapeUpdate(d, st.m, k, Filled(f, v));
    st.(m := st.m[SlotOf(d.fields, k) := Filled(f, v)], seen := seen)
  }

  lemma StepSingle(d: Desc, k: nat, wt: nat, y: bytes, st: Loop)
    requires WF(d) && LoopShape(d, st) && k < |d.fields| && !d.fields[k].htype.Repeated?
    requires FindTag(d.fields, d.fields[k].tag) == k
    ensures var f := d.fields[k];
            DecStep(d, f.tag, wt, y, st) ==
            match DecValue(f, Before(f, SlotAt(d, st.m, k)), y)
            case Bad => Bad
            case Got(v, rest) => Got(Fill(d, k, v, st), rest)
  {
    hide DecValue;
  }

  /** The state in which an array field is decoded: a fixed-count array may be a new one. */
  function Entered(d: Desc, k: nat, st: Loop): (r: Loop)
    requires LoopShape(d, st) && k < |d.fields|
    ensures LoopShape(d, r)
    ensures FixedCount(d.fields[k]) ==> r.fixed == k
  {
    if FixedCount(d.fields[k]) && st.fixed != k then st.(fixed := k, fixedSize := 0) else st
  }

  lemma StepArray(d: Desc, k: nat, wt: nat, y: bytes, st: Loop)
    requires WF(d) && LoopShape(d, st) && k < |d.fields| && d.fields[k].htype.Repeated?
    requires FindTag(d.fields, d.fields[k].tag) == k
    requires FixedCount(d.fields[k]) ==> st.fixed == k || FixedDone(d, st)
    ensures DecStep(d, d.fields[k].tag, wt, y, st) ==
            if wt == WT_STRING && Packable(d.fields[k].ltype) then DecPackedField(d, k, y, Entered(d, k, st))
            else DecItem(d, k, y, Entered(d, k, st))
  {
    hide DecPackedField, DecItem;
  }

  // ---------- Messages ----------

  /** A submessage that is decoded into v starts from its default state. */
  predicate Ready(f: Field, v: Value)
    requires WFField(f) && ShapeValue(f, v)
  {
    f.ltype.SubMessage? ==> Def(f.ptr.desc, v.slots)
  }

  lemma {:induction false} ValueRoundTrip(f: Field, v: Value, prev: Value, x: bytes) returns (v': Value)
    requires WFField(f) && ShapeValue(f, v) && ShapeValue(f, prev)
    requires !f.htype.Repeated? ==> Ready(f, prev)
    requires EncValue(f, v).Some? && |EncValue(f, v).value| < TWO_32
    ensures if TermValue(f, v)
            then DecValue(f, prev, EncValue(f, v).value + x) == Got(v', x) && ShapeValue(f, v') && SameValue(f, v', v)
            else DecValue(f, prev, EncValue(f, v).value + x) == Bad
    decreases f, 0
  {
    v' := prev;
    if Packable(f.ltype) {
      ScalarRoundTrip(f, v.i, x);
      NormalFits(f, v.i);
      v' := Int(Normal(f, v.i));
    } else if f.ltype.SubMessage? {
      var d := f.ptr.desc;
      var body := EncMessage(d, v.slots).value;
      var start := if f.htype.Repeated? then DefaultMessage(d, prev.slots) else prev.slots;
      if f.htype.Repeated? {
        DefaultsAreDefault(d, prev.slots);
      }
      FrameRoundTrip(body, x);
      var m := MessageRoundTrip(d, v.slots, start, []);
      assert body + [] == body;
      v' := Sub(m);
    } else {
      BlobRoundTrip(f, v, prev.b, x);
      v' := Blob(if TermValue(f, v) then DecBlob(f, prev.b, EncValue(f, v).value + x).v else prev.b);
    }
  }

  /** The array entry k while its first n items have been received. */
  predicate ItemsReached(d: Desc, m: seq<Slot>, k: nat, n: nat, st: Loop)
    requires WF(d) && Shape(d, m) && LoopShape(d, st) && k < |d.fields| && d.fields[k].htype.Repeated?
  {
    var f := d.fields[k];
    n <= f.arraySize && !st.ended &&
    Received(f, SlotAt(d, st.m, k).items, SlotAt(d, m, k).items, n) &&
    SizeAt(d, Entered(d, k, st), k) == n &&
    (if FixedCount(f) then st.fixed <= k && (st.fixed < k ==> FixedDone(d, st)) else st.fixed < k && FixedDone(d, st)) &&
    forall j | 0 <= j < |d.fields| && j != k :: FieldReached(d, m, k, st, j)
  }

  lemma ItemsStart(d: Desc, m: seq<Slot>, k: nat, st: Loop)
    requires WF(d) && Shape(d, m) && LoopShape(d, st) && k < |d.fields| && d.fields[k].htype.Repeated?
    requires Reached(d, m, k, st)
    ensures ItemsReached(d, m, k, 0, st)
  {
    assert FieldReached(d, m, k, st, k);
  }

  lemma ItemsEnd(d: Desc, m: seq<Slot>, k: nat, st: Loop)
    requires WF(d) && Shape(d, m) && LoopShape(d, st) && k < |d.fields| && d.fields[k].htype.Repeated?
    requires 0 < ItemCount(d.fields[k], SlotAt(d, m, k)) <= d.fields[k].arraySize
    requires ItemsReached(d, m, k, ItemCount(d.fields[k], SlotAt(d, m, k)), st)
    ensures Reached(d, m, k + 1, st)
  {
    var s := SlotAt(d, st.m, k);
    assert st.m == st.m[SlotOf(d.fields, k) := s];
    ReachedPut(d, m, k, st, s, st);
  }

  /** Storing items and the size keeps what holds elsewhere. */
  lemma ItemsPut(d: Desc, m: seq<Slot>, k: nat, n: nat, st: Loop, items: seq<Value>, n': nat)
    requires WF(d) && Shape(d, m) && LoopShape(d, st) && k < |d.fields| && d.fields[k].htype.Repeated?
    requires ItemsReached(d, m, k, n, st) && |items| == d.fields[k].arraySize && n' <= |items|
    requires forall j | 0 <= j < |items| :: ShapeValue(d.fields[k], items[j])
    requires Received(d.fields[k], items, SlotAt(d, m, k).items, n')
    ensures ItemsReached(d, m, k, n', PutItems(d, k, items, n', Entered(d, k, st)))
  {
    var st' := PutItems(d, k, items, n', Entered(d, k, st));
    forall j | 0 <= j < |d.fields| && j != k ensures FieldReached(d, m, k, st', j) {
      assert FieldReached(d, m, k, st, j);
      assert SlotAt(d, st'.m, j) == SlotAt(d, st.m, j);
    }
  }

  /** A packed record brings a whole array of integers. */
  lemma PackedFieldRoundTrip(d: Desc, m: seq<Slot>, k: nat, st: Loop, tail: bytes) returns (st': Loop)
    requires WF(d) && Shape(d, m) && LoopShape(d, st) && k < |d.fields|
    requires d.fields[k].htype.Repeated? && Packable(d.fields[k].ltype)
    requires Reached(d, m, k, st)
    requires 0 < ItemCount(d.fields[k], SlotAt(d, m, k)) <= d.fields[k].arraySize
    requires var e := EncField(d.fields[k], SlotAt(d, m, k)); e.Some? && |e.value| < TWO_32
    ensures LoopShape(d, st') && Reached(d, m, k + 1, st')
    ensures DecLoop(d, EncField(d.fields[k], SlotAt(d, m, k)).value + tail, st) == DecLoop(d, tail, st')
  {
    hide DecLoop, DecStep, DecPacked, EncPacked, Frame, ItemsReached, Reached, PutItems, Entered, SizeAt, EncVarint;
    var f, t := d.fields[k], SlotAt(d, m, k);
    var n := ItemCount(f, t);
    var p := EncPacked(f, t.items[..n]);
    ItemsStart(d, m, k, st);
    var st1 := Entered(d, k, st);
    ArrayReady(d, m, k, 0, st);
    var y := Delimited(p) + tail;
    assert EncField(f, t).value + tail == Tag(WT_STRING, f.tag) + y;
    LoopStep(d, k, WT_STRING, y, st);
    StepArray(d, k, WT_STRING, y, st);
    FrameRoundTrip(p, tail);
    assert t.items[0..n] == t.items[..n];
    var items := PackedRoundTrip(f, SlotAt(d, st.m, k).items, t.items, 0, n);
    ItemsPut(d, m, k, 0, st, items, n);
    st' := PutItems(d, k, items, n, st1);
    ItemsEnd(d, m, k, st');
  }

  /** What an array entry is decoded from next. */
  lemma ArrayReady(d: Desc, m: seq<Slot>, k: nat, n: nat, st: Loop)
    requires WF(d) && Shape(d, m) && LoopShape(d, st) && k < |d.fields| && d.fields[k].htype.Repeated?
    requires ItemsReached(d, m, k, n, st)
    ensures FixedCount(d.fields[k]) ==> st.fixed == k || FixedDone(d, st)
    ensures SizeAt(d, Entered(d, k, st), k) == n <= d.fields[k].arraySize
    ensures Entered(d, k, st).m == st.m
    ensures Received(d.fields[k], SlotAt(d, st.m, k).items, SlotAt(d, m, k).items, n)
  {
  }

  lemma NextItem(d: Desc, m: seq<Slot>, k: nat, n: nat, st: Loop, y: bytes)
    requires WF(d) && Shape(d, m) && LoopShape(d, st) && k < |d.fields| && d.fields[k].htype.Repeated?
    requires ItemsReached(d, m, k, n, st) && n < d.fields[k].arraySize
    ensures var f, items := d.fields[k], SlotAt(d, st.m, k).items;
            DecItem(d, k, y, Entered(d, k, st)) ==
            match DecValue(f, items[n], y)
            case Bad => Bad
            case Got(v, rest) => Got(PutItems(d, k, items[n := v], n + 1, Entered(d, k, st)), rest)
  {
    hide DecValue, PutItems, ItemsReached, SizeAt, Entered, WF, Shape, ShapeValue, WFField, SameValue;
    ArrayReady(d, m, k, n, st);
  }

  /** One item of an array in a record of its own. */
  lemma {:induction false} ItemRoundTrip(d: Desc, m: seq<Slot>, k: nat, n: nat, st: Loop, x: bytes)
    returns (st': Loop)
    requires WF(d) && Shape(d, m) && LoopShape(d, st) && k < |d.fields|
    requires d.fields[k].htype.Repeated? && !Packable(d.fields[k].ltype) && n < d.fields[k].arraySize
    requires ItemsReached(d, m, k, n, st)
    requires var e := EncRecord(d.fields[k], SlotAt(d, m, k).items[n]); e.Some? && |e.value| < TWO_32
    ensures LoopShape(d, st')
    ensures var f, v := d.fields[k], SlotAt(d, m, k).items[n];
            if TermValue(f, v)
            then ItemsReached(d, m, k, n + 1, st') &&
                 DecLoop(d, EncRecord(f, v).value + x, st) == DecLoop(d, x, st')
            else DecLoop(d, EncRecord(f, v).value + x, st) == Bad
    decreases d.fields[k], 1
  {
    hide DecLoop, DecStep, DecItem, DecValue, EncValue, ItemsReached, PutItems, Entered, Tag, SameValue, TermValue, WF, Shape, ShapeValue;
    var f, v := d.fields[k], SlotAt(d, m, k).items[n];
    st' := st;
    var p := EncValue(f, v).value;
    assert EncRecord(f, v).value + x == Tag(WT_STRING, f.tag) + (p + x);
    LoopStep(d, k, WT_STRING, p + x, st);
    ArrayReady(d, m, k, n, st);
    StepArray(d, k, WT_STRING, p + x, st);
    NextItem(d, m, k, n, st, p + x);
    var items := SlotAt(d, st.m, k).items;
    var v' := ValueRoundTrip(f, v, items[n], x);
    if TermValue(f, v) {
      ItemsPut(d, m, k, n, st, items[n := v'], n + 1);
      st' := PutItems(d, k, items[n := v'], n + 1, Entered(d, k, st));
    }
  }

  /** One item record after the other brings an array; the first unterminated string ends in an error. */
  lemma {:induction false} ItemsRoundTrip(d: Desc, m: seq<Slot>, k: nat, n: nat, c: nat, st: Loop, tail: bytes)
    returns (st': Loop)
    requires WF(d) && Shape(d, m) && LoopShape(d, st) && k < |d.fields|
    requires d.fields[k].htype.Repeated? && !Packable(d.fields[k].ltype)
    requires n <= c <= d.fields[k].arraySize
    requires ItemsReached(d, m, k, n, st)
    requires var e := EncItems(d.fields[k], SlotAt(d, m, k).items[n..c]); e.Some? && |e.value| < TWO_32
    ensures LoopShape(d, st')
    ensures var f, items := d.fields[k], SlotAt(d, m, k).items;
            if forall j | n <= j < c :: TermValue(f, items[j])
            then ItemsReached(d, m, k, c, st') &&
                 DecLoop(d, EncItems(f, items[n..c]).value + tail, st) == DecLoop(d, tail, st')
            else DecLoop(d, EncItems(f, items[n..c]).value + tail, st) == Bad
    decreases d.fields[k], 2, d.fields[k].arraySize - n
  {
    hide DecLoop, ItemsReached, EncRecord, TermValue, ShapeValue, Shape, WF, LoopShape;
    var f, items := d.fields[k], SlotAt(d, m, k).items;
    st' := st;
    if n == c {
      assert items[n..c] == [];
      assert EncItems(f, items[n..c]).value + tail == tail;
    } else {
      var v, later := items[n], items[n + 1..c];
      assert items[n..c][0] == v && items[n..c][1..] == later;
      var x := EncItems(f, later).value + tail;
      assert EncItems(f, items[n..c]).value + tail == EncRecord(f, v).value + x;
      var st1 := ItemRoundTrip(d, m, k, n, st, x);
      if TermValue(f, v) {
        st' := ItemsRoundTrip(d, m, k, n + 1, c, st1, tail);
      }
    }
  }

  // ---------- Fields ----------

  /** A field that is not repeated, in one record. */
  lemma {:induction false} RecordRoundTrip(d: Desc, m: seq<Slot>, k: nat, st: Loop, v: Value, tail: bytes)
    returns (st': Loop)
    requires WF(d) && Shape(d, m) && LoopShape(d, st) && k < |d.fields| && Reached(d, m, k, st)
    requires !d.fields[k].htype.Repeated? && SlotAt(d, m, k) == Filled(d.fields[k], v)
    requires ShapeValue(d.fields[k], v)
    requires EncRecord(d.fields[k], v).Some? && |EncRecord(d.fields[k], v).value| < TWO_32
    ensures LoopShape(d, st')
    ensures if TermValue(d.fields[k], v)
            then Reached(d, m, k + 1, st') &&
                 DecLoop(d, EncRecord(d.fields[k], v).value + tail, st) == DecLoop(d, tail, st')
            else DecLoop(d, EncRecord(d.fields[k], v).value + tail, st) == Bad
    decreases d.fields[k], 1
  {
    hide DecLoop, DecStep, DecValue, EncValue, Tag, SameValue, TermValue, Reached, Filled, Before, Fill, WF, Shape, ShapeValue,
         ShapeSlot;
    var f, wt := d.fields[k], WireType(d.fields[k].ltype);
    st' := st;
    var p := EncValue(f, v).value;
    assert EncRecord(f, v).value + tail == Tag(wt, f.tag) + (p + tail);
    LoopStep(d, k, wt, p + tail, st);
    StepSingle(d, k, wt, p + tail, st);
    BeforeReady(d, m, k, st);
    var v' := ValueRoundTrip(f, v, Before(f, SlotAt(d, st.m, k)), tail);
    if TermValue(f, v) {
      FillReaches(d, m, k, st, v, v');
      st' := Fill(d, k, v', st);
    }
  }

  lemma BeforeReady(d: Desc, m: seq<Slot>, k: nat, st: Loop)
    requires WF(d) && Shape(d, m) && LoopShape(d, st) && k < |d.fields| && Reached(d, m, k, st)
    requires !d.fields[k].htype.Repeated?
    ensures Ready(d.fields[k], Before(d.fields[k], SlotAt(d, st.m, k)))
  {
    hide WF, Shape, ShapeValue, WFField, DefSlot, SameSlot;
    assert FieldReached(d, m, k, st, k);
    BeforeIsDefault(d.fields[k], SlotAt(d, st.m, k));
  }

  lemma FillReaches(d: Desc, m: seq<Slot>, k: nat, st: Loop, v: Value, v': Value)
    requires WF(d) && Shape(d, m) && LoopShape(d, st) && k < |d.fields| && Reached(d, m, k, st)
    requires !d.fields[k].htype.Repeated? && SlotAt(d, m, k) == Filled(d.fields[k], v)
    requires ShapeValue(d.fields[k], v) && ShapeValue(d.fields[k], v') && SameValue(d.fields[k], v', v)
    ensures Reached(d, m, k + 1, Fill(d, k, v', st))
  {
    hide WF, Shape, ShapeValue, FieldReached, SameValue;
    ReachedPut(d, m, k, st, Filled(d.fields[k], v'), Fill(d, k, v', st));
  }

  lemma BeforeIsDefault(f: Field, s: Slot)
    requires WFField(f) && ShapeSlot(f, s) && !f.htype.Repeated?
    requires f.htype.OneOf? || DefSlot(f, s)
    ensures Ready(f, Before(f, s))
  {
    if f.ltype.SubMessage? && f.htype.OneOf? {
      DefaultValueIsDefault(f, ZeroValue(f));
    }
  }

  lemma {:induction false} ArrayRoundTrip(d: Desc, m: seq<Slot>, k: nat, st: Loop, tail: bytes) returns (st': Loop)
    requires WF(d) && Shape(d, m) && LoopShape(d, st) && k < |d.fields| && Reached(d, m, k, st)
    requires d.fields[k].htype.Repeated?
    requires var e := EncField(d.fields[k], SlotAt(d, m, k)); e.Some? && |e.value| < TWO_32
    ensures LoopShape(d, st')
    ensures var f, t := d.fields[k], SlotAt(d, m, k);
            if TermSlot(f, t)
            then Reached(d, m, k + 1, st') && DecLoop(d, EncField(f, t).value + tail, st) == DecLoop(d, tail, st')
            else DecLoop(d, EncField(f, t).value + tail, st) == Bad
    decreases d.fields[k], 3
  {
    hide DecLoop, Reached, ItemsReached, EncPacked, EncItems, Tag;
    var f, t := d.fields[k], SlotAt(d, m, k);
    var c := ItemCount(f, t);
    if c == 0 {
      ReachedAbsent(d, m, k, st);
      st' := st;
      assert EncField(f, t).value + tail == tail;
    } else if Packable(f.ltype) {
      assert forall j | 0 <= j < c && j < f.arraySize :: TermValue(f, t.items[j]);
      st' := PackedFieldRoundTrip(d, m, k, st, tail);
    } else {
      ItemsStart(d, m, k, st);
      assert t.items[0..c] == t.items[..c];
      st' := ItemsRoundTrip(d, m, k, 0, c, st, tail);
      assert TermSlot(f, t) <==> forall j | 0 <= j < c :: TermValue(f, t.items[j]);
      if TermSlot(f, t) {
        ItemsEnd(d, m, k, st');
      }
    }
  }

  lemma {:induction false} FieldRoundTrip(d: Desc, m: seq<Slot>, k: nat, st: Loop, tail: bytes) returns (st': Loop)
    requires WF(d) && Shape(d, m) && LoopShape(d, st) && k < |d.fields| && Reached(d, m, k, st)
    requires var e := EncField(d.fields[k], SlotAt(d, m, k)); e.Some? && |e.value| < TWO_32
    ensures LoopShape(d, st')
    ensures var f, t := d.fields[k], SlotAt(d, m, k);
            if TermSlot(f, t)
            then Reached(d, m, k + 1, st') && DecLoop(d, EncField(f, t).value + tail, st) == DecLoop(d, tail, st')
            else DecLoop(d, EncField(f, t).value + tail, st) == Bad
    decreases d.fields[k], 4
  {
    hide DecLoop, Reached, EncRecord, TermValue, DefaultItem;
    var f, t := d.fields[k], SlotAt(d, m, k);
    if f.htype.Repeated? {
      st' := ArrayRoundTrip(d, m, k, st, tail);
    } else if Absent(f, t) {
      ReachedAbsent(d, m, k, st);
      st' := st;
      assert EncField(f, t).value + tail == tail;
    } else {
      st' := RecordRoundTrip(d, m, k, st, t.v, tail);
    }
  }

  predicate TermFrom(d: Desc, m: seq<Slot>, k: nat)
    requires WF(d) && Shape(d, m)
  {
    forall i | k <= i < |d.fields| :: TermSlot(d.fields[i], SlotAt(d, m, i))
  }

  /** The loop reads the fields from the k-th on and meets whatever follows them. */
  lemma {:induction false} LoopRoundTrip(d: Desc, m: seq<Slot>, k: nat, st: Loop, tail: bytes) returns (st': Loop)
    requires WF(d) && Shape(d, m) && LoopShape(d, st) && k <= |d.fields| && Reached(d, m, k, st)
    requires EncFrom(d, m, k).Some? && |EncFrom(d, m, k).value| < TWO_32
    ensures LoopShape(d, st')
    ensures if TermFrom(d, m, k)
            then Reached(d, m, |d.fields|, st') && DecLoop(d, EncFrom(d, m, k).value + tail, st) == DecLoop(d, tail, st')
            else DecLoop(d, EncFrom(d, m, k).value + tail, st) == Bad
    decreases d, 0, |d.fields| - k
  {
    hide DecLoop, Reached, EncField, TermSlot, EncFrom, TermFrom, LoopShape, Shape, WF;
    st' := st;
    FromStep(d, m, k);
    TermStep(d, m, k);
    if k == |d.fields| {
      assert EncFrom(d, m, k).value + tail == tail;
    } else {
      var f, t := d.fields[k], SlotAt(d, m, k);
      var x := EncFrom(d, m, k + 1).value + tail;
      assert EncFrom(d, m, k).value + tail == EncField(f, t).value + x;
      var st1 := FieldRoundTrip(d, m, k, st, x);
      if TermSlot(f, t) {
        st' := LoopRoundTrip(d, m, k + 1, st1, tail);
      }
    }
  }

  /** The encoding of the fields from the k-th on starts with the k-th. */
  lemma FromStep(d: Desc, m: seq<Slot>, k: nat)
    requires WF(d) && Shape(d, m) && k <= |d.fields|
    ensures k == |d.fields| ==> EncFrom(d, m, k) == Some([])
    ensures k < |d.fields| ==>
              EncFrom(d, m, k) == Join(EncField(d.fields[k], SlotAt(d, m, k)), EncFrom(d, m, k + 1))
  {
    hide EncField, WFField, ShapeSlot, WF, Shape;
  }

  lemma TermStep(d: Desc, m: seq<Slot>, k: nat)
    requires WF(d) && Shape(d, m) && k <= |d.fields|
    ensures k == |d.fields| ==> TermFrom(d, m, k)
    ensures k < |d.fields| ==>
              (TermFrom(d, m, k) <==> TermSlot(d.fields[k], SlotAt(d, m, k)) && TermFrom(d, m, k + 1))
  {
    hide TermSlot, WFField, ShapeSlot, WF, Shape;
  }

  lemma {:induction false} RequiredIs(fs: seq<Field>, r: nat, n: nat) returns (j: nat)
    requires n <= |fs| && r < RequiredBefore(fs, n)
    ensures j < n && fs[j].htype.Required? && RequiredBefore(fs, j) == r
  {
    if fs[n - 1].htype.Required? && RequiredBefore(fs, n - 1) == r {
      j := n - 1;
    } else {
      j := RequiredIs(fs, r, n - 1);
    }
  }

  lemma ReachedEnd(d: Desc, m: seq<Slot>, st: Loop)
    requires WF(d) && Shape(d, m) && LoopShape(d, st) && Reached(d, m, |d.fields|, st)
    ensures FixedDone(d, st) && AllSeen(d, st.seen) && Same(d, st.m, m)
  {
    forall r: nat | r < RequiredBefore(d.fields, |d.fields|) && r < PB_MAX_REQUIRED_FIELDS ensures r in st.seen {
      var j := RequiredIs(d.fields, r, |d.fields|);
      assert FieldReached(d, m, |d.fields|, st, j);
    }
    forall i | 0 <= i < |d.fields| ensures SameSlot(d.fields[i], SlotAt(d, st.m, i), SlotAt(d, m, i)) {
      assert FieldReached(d, m, |d.fields|, st, i);
    }
  }

  /** A message ends where its bytes end or at a zero byte. */
  lemma LoopStops(d: Desc, tail: bytes, st: Loop)
    requires WF(d) && LoopShape(d, st) && (tail == [] || tail[0] == 0)
    ensures var r := DecLoop(d, tail, st);
            r.Got? && r.v == st.(ended := r.v.ended) && r.rest == if tail == [] then [] else tail[1..]
  {
  }

  lemma {:induction false} MessageRoundTrip(d: Desc, m: seq<Slot>, start: seq<Slot>, tail: bytes) returns (m': seq<Slot>)
    requires WF(d) && Shape(d, m) && Shape(d, start) && Def(d, start)
    requires EncMessage(d, m).Some? && |EncMessage(d, m).value| < TWO_32
    requires tail == [] || tail[0] == 0
    ensures Shape(d, m')
    ensures if Term(d, m)
            then DecNoInit(d, EncMessage(d, m).value + tail, start) == Got(m', if tail == [] then [] else tail[1..]) &&
                 Same(d, m', m)
            else DecNoInit(d, EncMessage(d, m).value + tail, start) == Bad
    decreases d, 1
  {
    hide DecLoop, Reached, EncFrom, Same, AllSeen, TermSlot;
    m' := start;
    ReachedStart(d, m, start);
    var st := LoopRoundTrip(d, m, 0, Start(start), tail);
    if Term(d, m) {
      LoopStops(d, tail, st);
      ReachedEnd(d, m, st);
      m' := st.m;
    }
  }

  // ---------- The main results ----------

  /**
    pb_decode of what pb_encode wrote, into a struct with any content: it succeeds exactly
    when every encoded string has its NUL inside its buffer, it then reads all bytes and
    leaves the same message.
   */
  lemma FullRoundTrip(d: Desc, m: seq<Slot>, junk: seq<Slot>)
    requires WF(d) && Shape(d, m) && Shape(d, junk)
    requires EncMessage(d, m).Some? && |EncMessage(d, m).value| < TWO_32
    ensures var r := Decode(d, EncMessage(d, m).value, junk);
            (r.Got? <==> Term(d, m)) && (r.Got? ==> r.rest == [] && Same(d, r.v, m))
  {
    hide DecNoInit, Term, Same;
    DefaultsAreDefault(d, junk);
    var m' := MessageRoundTrip(d, m, DefaultMessage(d, junk), []);
    assert EncMessage(d, m).value + [] == EncMessage(d, m).value;
  }

  /** pb_encode_nullterminated and pb_decode: reading stops just past the zero byte, whatever follows. */
  lemma NullTerminatedRoundTrip(d: Desc, m: seq<Slot>, junk: seq<Slot>, x: bytes)
    requires WF(d) && Shape(d, m) && Shape(d, junk)
    requires EncMessage(d, m).Some? && |EncMessage(d, m).value| < TWO_32
    ensures var r := Decode(d, EncMessage(d, m).value + [0] + x, junk);
            (r.Got? <==> Term(d, m)) && (r.Got? ==> r.rest == x && Same(d, r.v, m))
  {
    hide DecNoInit, Term, Same;
    DefaultsAreDefault(d, junk);
    var tail: bytes := [0] + x;
    var m' := MessageRoundTrip(d, m, DefaultMessage(d, junk), tail);
    assert EncMessage(d, m).value + [0] + x == EncMessage(d, m).value + tail;
    assert tail[1..] == x;
  }

  lemma DelimitedRoundTrip(d: Desc, m: seq<Slot>, junk: seq<Slot>, x: bytes)
    requires WF(d) && Shape(d, m) && Shape(d, junk)
    requires EncMessage(d, m).Some? && |EncMessage(d, m).value| < TWO_32
    ensures var r := DecodeDelimited(d, Delimited(EncMessage(d, m).value) + x, junk);
            (r.Got? <==> Term(d, m)) && (r.Got? ==> r.rest == x && Same(d, r.v, m))
  {
    hide Decode, Term, Same, Frame, Delimited;
    FullRoundTrip(d, m, junk);
    FrameRoundTrip(EncMessage(d, m).value, x);
  }

  // ---------- Streams of delimited messages ----------

  /** A list of structs that can be sent as delimited messages. */
  predicate Sendable(d: Desc, ms: seq<seq<Slot>>)
    requires WF(d)
  {
    forall i | 0 <= i < |ms| ::
      Shape(d, ms[i]) && Term(d, ms[i]) && EncMessage(d, ms[i]).Some? && |EncMessage(d, ms[i]).value| < TWO_32
  }

  /** The outputs of pb_encode_delimited, end to end. */
  function SendAll(d: Desc, ms: seq<seq<Slot>>): bytes
    requires WF(d) && Sendable(d, ms)
  {
    if ms == [] then [] else Delimited(EncMessage(d, ms[0]).value) + SendAll(d, ms[1..])
  }

  /** n calls of pb_decode_delimited into the same struct, whose content is copied out each time. */
  function ReceiveAll(d: Desc, n: nat, b: bytes, junk: seq<Slot>): Parsed<seq<seq<Slot>>>
    requires WF(d) && Shape(d, junk)
  {
    if n == 0 then Got([], b)
    else
      match DecodeDelimited(d, b, junk)
      case Bad => Bad
      case Got(m, rest) =>
        match ReceiveAll(d, n - 1, rest, m)
        case Bad => Bad
        case Got(ms, rest') => Got([m] + ms, rest')
  }

  /** Delimited messages sent one after the other arrive one by one, and what follows is left alone. */
  lemma {:induction false} StreamRoundTrip(d: Desc, ms: seq<seq<Slot>>, junk: seq<Slot>, x: bytes)
    requires WF(d) && Shape(d, junk) && Sendable(d, ms)
    ensures var r := ReceiveAll(d, |ms|, SendAll(d, ms) + x, junk);
            r.Got? && r.rest == x && |r.v| == |ms| &&
            forall i | 0 <= i < |ms| :: Shape(d, r.v[i]) && Same(d, r.v[i], ms[i])
  {
    hide DecodeDelimited, Term, Same, Delimited, EncMessage, Shape;
    var b := SendAll(d, ms) + x;
    if ms != [] {
      var later := SendAll(d, ms[1..]) + x;
      assert b == Delimited(EncMessage(d, ms[0]).value) + later;
      DelimitedRoundTrip(d, ms[0], junk, later);
      var m := DecodeDelimited(d, b, junk).v;
      StreamRoundTrip(d, ms[1..], m, x);
      var r := ReceiveAll(d, |ms|, b, junk);
      assert r.v[1..] == ReceiveAll(d, |ms| - 1, later, m).v;
      forall i | 0 <= i < |ms| ensures Shape(d, r.v[i]) && Same(d, r.v[i], ms[i]) {
        if i > 0 {
          assert r.v[i] == r.v[1..][i - 1] && ms[i] == ms[1..][i - 1];
        }
      }
    } else {
      assert b == x;
    }
  }
}
