/**
  What goes over the wire, in numbers and without a field table: keys, payloads, and how much a reader
  that does not know a field has to skip. (Protocol Buffers Encoding, "Message Structure".)
 */
module Wire {
  import opened Basics
  import opened Varint
  import opened Scalars
  import opened Message
  import opened EncodeSpec
  import opened DecodeSpec
  import opened RoundTripItems
  import opened RoundTrip
  import opened Merge

  // ---------- How much is read ----------

  lemma FrameExact(b: bytes, body: bytes, rest: bytes)
    ensures Frame(b) == Got(body, rest) <==> Varint32(b) == Got(|body|, body + rest)
  {
    hide Varint32;
    if Frame(b) == Got(body, rest) {
      assert body + rest == Varint32(b).rest;
    }
    if Varint32(b) == Got(|body|, body + rest) {
      TakeAll(body, rest);
    }
  }

  lemma {:induction false} SkipVarintOver(w: bytes, x: bytes)
    requires IsVarint(w)
    ensures SkipVarint(w + x) == Got((), x)
  {
    assert (w + x)[0] == w[0] && (w + x)[1..] == w[1..] + x;
    if |w| > 1 {
      SkipVarintOver(w[1..], x);
    } else {
      assert w[1..] + x == x;
    }
  }

  lemma {:induction false} SkippedVarint(b: bytes) returns (w: bytes)
    requires SkipVarint(b).Got?
    ensures IsVarint(w) && b == w + SkipVarint(b).rest
  {
    w := [b[0]];
    if b[0] >= 128 {
      var t := SkippedVarint(b[1..]);
      w := w + t;
      assert w[1..] == t && |t| > 0;
    }
  }

  /**
    What each wire type takes: 0 one varint of any length, 1 eight bytes, 5 four bytes, 2 a length
    and that many bytes; every other one is refused.
   */
  lemma SkipExact(wt: nat, b: bytes, rest: bytes)
    ensures wt == 0 ==> (Skip(wt, b) == Got((), rest) <==> exists w :: IsVarint(w) && b == w + rest)
    ensures wt == 1 ==> (Skip(wt, b) == Got((), rest) <==> |b| >= 8 && rest == b[8..])
    ensures wt == 5 ==> (Skip(wt, b) == Got((), rest) <==> |b| >= 4 && rest == b[4..])
    ensures wt == 2 ==> (Skip(wt, b) == Got((), rest) <==> exists body :: Varint32(b) == Got(|body|, body + rest))
    ensures wt !in {0, 1, 2, 5} ==> Skip(wt, b) == Bad
  {
    hide Varint32, SkipVarint, Frame;
    if wt == 0 {
      if SkipVarint(b).Got? {
        var w := SkippedVarint(b);
      }
      forall w | IsVarint(w) && b == w + rest ensures SkipVarint(b) == Got((), rest) {
        SkipVarintOver(w, rest);
      }
    } else if wt == 2 {
      if Frame(b).Got? {
        FrameExact(b, Frame(b).v, Frame(b).rest);
      }
      forall body: bytes | Varint32(b) == Got(|body|, body + rest) ensures Frame(b) == Got(body, rest) {
        FrameExact(b, body, rest);
      }
    }
  }

  // ---------- Payloads ----------

  /** The payload of an integer: a bool is one byte, a negative number is sign-extended to 64 bits. */
  lemma PayloadNumbers(f: Field, i: int)
    requires Packable(f.ltype) && ShapeValue(f, Int(i))
    ensures var e := EncScalar(f, i);
            match f.ltype
            case Bool => e == [if i == 0 then 0 else 1]
            case VarInt => IsVarint(e) && GroupSum(e) == if i < 0 then 0x1_0000_0000_0000_0000 + i else i
            case UVarInt => IsVarint(e) && GroupSum(e) == i
            case SVarInt => IsVarint(e) && GroupSum(e) == if i < 0 then -2 * i - 1 else 2 * i
            case Fixed32 => |e| == 4 && WordOf(e) == i
            case Fixed64 => |e| == 8 && WordOf(e[..4]) + 0x1_0000_0000 * WordOf(e[4..]) == i
            case _ => true
  {
    hide EncVarint, IsVarint, GroupSum, Little;
    match f.ltype
    case Bool => BoolPayload(i);
    case VarInt =>
      SignedRange(f.dataSize, i);
      EncVarintSpells(Unsigned64(i));
    case UVarInt => EncVarintSpells(i);
    case SVarInt =>
      SignedRange(f.dataSize, i);
      EncVarintSpells(ZigZag(i));
    case Fixed32 => WholeWord(i);
    case Fixed64 =>
      LittleWord(i, 4);
      WholeWord(i / 0x1_0000_0000);
    case _ =>
  }

  lemma BoolPayload(i: int)
    ensures EncVarint(if i != 0 then 1 else 0) == [if i == 0 then 0 else 1]
  {
  }

  lemma WholeWord(v: nat)
    requires v < TWO_32
    ensures WordOf(Little(v, 4)) == v
  {
    LittleWord(v, 0);
    assert Little(v, 4)[..4] == Little(v, 4);
  }

  /** The first word of a little-endian number. */
  lemma LittleWord(v: nat, n: nat)
    ensures var e := Little(v, n + 4);
            e[4..] == Little(v / 0x1_0000_0000, n) && WordOf(e[..4]) == v % 0x1_0000_0000
  {
    hide Little;
    LittleFour(v, n);
    LowBytesWord(v);
    assert Little(v, n + 4)[..4] == LowBytes(v);
  }

  // ---------- Keys ----------

  /** The wire types of the standard. */
  function WireNumber(t: LType): nat {
    match t
    case Bool | VarInt | UVarInt | SVarInt => 0
    case Fixed64 => 1
    case Bytes | String | SubMessage | FixedLengthBytes => 2
    case Fixed32 => 5
  }

  /** A record is a key with the field's tag and the wire type of its type, and the payload. */
  lemma RecordKey(f: Field, v: Value, x: bytes)
    requires WFField(f) && ShapeValue(f, v) && EncValue(f, v).Some?
    ensures var e := EncRecord(f, v).value;
            && EncRecord(f, v).Some? && e != []
            && DecTag(e + x) == TagOk(f.tag, WireNumber(f.ltype), EncValue(f, v).value + x)
            && (f.tag < 16 ==> e[0] == 8 * f.tag + WireNumber(f.ltype))
  {
    hide EncValue, DecTag, Tag, WFField, ShapeValue;
    var e, p := EncRecord(f, v).value, EncValue(f, v).value;
    FieldTag(f);
    TagRoundTrip(WireNumber(f.ltype), f.tag, p + x);
    if f.tag < 16 {
      SmallTag(WireNumber(f.ltype), f.tag);
    }
    assert e + x == Tag(WireNumber(f.ltype), f.tag) + (p + x);
  }

  lemma FieldTag(f: Field)
    requires WFField(f)
    ensures 0 < f.tag < TWO_29 && WireType(f.ltype) == WireNumber(f.ltype) < 8
  {
  }

  lemma SmallTag(wt: nat, tag: nat)
    requires tag < 16 && wt < 8
    ensures Tag(wt, tag) == [8 * tag + wt]
  {
  }

  lemma DelimitedSkipped(body: bytes, x: bytes)
    requires |Delimited(body)| < TWO_32
    ensures |body| < TWO_32 && Skip(2, Delimited(body) + x) == Got((), x)
  {
    hide EncVarint, Frame;
    FrameRoundTrip(body, x);
  }

  /** A reader of the key knows where the payload ends. */
  lemma PayloadSkipped(f: Field, v: Value, x: bytes)
    requires WFField(f) && ShapeValue(f, v) && EncValue(f, v).Some? && |EncValue(f, v).value| < TWO_32
    ensures Skip(WireNumber(f.ltype), EncValue(f, v).value + x) == Got((), x)
  {
    hide EncVarint, SkipVarint, Frame, Delimited, CStr, EncMessage, Little;
    var e := EncValue(f, v).value;
    match f.ltype
    case Bytes => DelimitedSkipped(v.b, x);
    case String => DelimitedSkipped(CStr(v.b), x);
    case FixedLengthBytes => DelimitedSkipped(v.b, x);
    case SubMessage => DelimitedSkipped(EncMessage(f.ptr.desc, v.slots).value, x);
    case Fixed32 => TakeAll(e, x);
    case Fixed64 => TakeAll(e, x);
    case _ =>
      PayloadNumbers(f, v.i);
      SkipVarintOver(e, x);
  }

  // ---------- Messages without their table ----------

  /** The keys of a byte string, read by wire types alone. */
  function Keys(b: bytes): Option<seq<(nat, nat)>>
    decreases |b|
  {
    if b == [] then Some([])
    else
      var t := DecTag(b);
      if !t.TagOk? || Skip(t.wt, t.rest).Bad? then None else Plus([(t.tag, t.wt)], Keys(Skip(t.wt, t.rest).rest))
  }

  function Plus(a: seq<(nat, nat)>, b: Option<seq<(nat, nat)>>): Option<seq<(nat, nat)>> {
    if b == None then None else Some(a + b.value)
  }

  function Times(n: nat, key: (nat, nat)): seq<(nat, nat)> {
    if n == 0 then [] else [key] + Times(n - 1, key)
  }

  /** The keys that one field is encoded with. */
  function FieldKeys(f: Field, s: Slot): seq<(nat, nat)>
    requires WFField(f) && ShapeSlot(f, s)
  {
    var key := (f.tag, WireNumber(f.ltype));
    match s
    case Single(v) => if Singular(f) && DefaultItem(f, v) then [] else [key]
    case Opt(has, _) => if has then [key] else []
    case Union(which, _) => if which == f.tag then [key] else []
    case Rep(_, _) =>
      match f.ltype
      case Bytes | String | SubMessage | FixedLengthBytes => Times(ItemCount(f, s), key)
      case _ => if ItemCount(f, s) == 0 then [] else [(f.tag, 2)]
  }

  /** The keys of the fields from the k-th on, in the order of the table. */
  function KeysFrom(d: Desc, m: seq<Slot>, k: nat): seq<(nat, nat)>
    requires WF(d) && Shape(d, m) && k <= |d.fields|
    decreases |d.fields| - k
  {
    if k == |d.fields| then [] else FieldKeys(d.fields[k], SlotAt(d, m, k)) + KeysFrom(d, m, k + 1)
  }

  lemma NextKey(tag: nat, wt: nat, p: bytes, x: bytes, b: bytes)
    requires b != [] && DecTag(b) == TagOk(tag, wt, p + x) && Skip(wt, p + x) == Got((), x)
    ensures Keys(b) == Plus([(tag, wt)], Keys(x))
  {
    hide DecTag, Skip;
  }

  lemma RecordKeys(f: Field, v: Value, x: bytes)
    requires WFField(f) && ShapeValue(f, v) && EncRecord(f, v).Some? && |EncRecord(f, v).value| < TWO_32
    ensures Keys(EncRecord(f, v).value + x) == Plus([(f.tag, WireNumber(f.ltype))], Keys(x))
  {
    hide EncValue, DecTag, Tag, Skip, Keys, WFField, ShapeValue;
    RecordKey(f, v, x);
    PayloadSkipped(f, v, x);
    NextKey(f.tag, WireNumber(f.ltype), EncValue(f, v).value, x, EncRecord(f, v).value + x);
  }

  lemma PackedKeys(tag: nat, body: bytes, x: bytes)
    requires 0 < tag < TWO_29 && |Tag(WT_STRING, tag) + Delimited(body)| < TWO_32
    ensures Keys(Tag(WT_STRING, tag) + Delimited(body) + x) == Plus([(tag, 2)], Keys(x))
  {
    hide DecTag, Tag, Keys, Delimited, Skip;
    var p := Delimited(body);
    TagRoundTrip(2, tag, p + x);
    DelimitedSkipped(body, x);
    assert Tag(WT_STRING, tag) + p + x == Tag(WT_STRING, tag) + (p + x);
    NextKey(tag, 2, p, x, Tag(WT_STRING, tag) + (p + x));
  }

  lemma {:induction false} ItemsKeys(f: Field, items: seq<Value>, x: bytes)
    requires WFField(f) && forall j | 0 <= j < |items| :: ShapeValue(f, items[j])
    requires EncItems(f, items).Some? && |EncItems(f, items).value| < TWO_32
    ensures Keys(EncItems(f, items).value + x) ==
            Plus(Times(|items|, (f.tag, WireNumber(f.ltype))), Keys(x))
    decreases |items|
  {
    hide EncRecord, Keys, WFField, ShapeValue;
    var key := (f.tag, WireNumber(f.ltype));
    if items == [] {
      assert [] + x == x;
      PlusPlus([], [], Keys(x));
    } else {
      var e, rest := EncRecord(f, items[0]).value, EncItems(f, items[1..]).value;
      assert e + rest + x == e + (rest + x);
      RecordKeys(f, items[0], rest + x);
      ItemsKeys(f, items[1..], x);
      PlusPlus([key], Times(|items| - 1, key), Keys(x));
    }
  }

  lemma PlusPlus(a: seq<(nat, nat)>, b: seq<(nat, nat)>, c: Option<seq<(nat, nat)>>)
    ensures Plus(a, Plus(b, c)) == Plus(a + b, c)
    ensures Plus([], c) == c
  {
    if c.Some? {
      assert a + (b + c.value) == a + b + c.value;
      assert [] + c.value == c.value;
    }
  }

  lemma FieldHasKeys(f: Field, s: Slot, x: bytes)
    requires WFField(f) && ShapeSlot(f, s) && EncField(f, s).Some? && |EncField(f, s).value| < TWO_32
    ensures Keys(EncField(f, s).value + x) == Plus(FieldKeys(f, s), Keys(x))
  {
    hide EncRecord, EncItems, Keys, DefaultItem, Tag, Delimited, WF, Shape;
    assert [] + x == x;
    PlusPlus([], [], Keys(x));
    FieldTag(f);
    if s.Rep? {
      var n := ItemCount(f, s);
      if n > 0 && Packable(f.ltype) {
        PackedKeys(f.tag, EncPacked(f, s.items[..n]), x);
      } else if n > 0 {
        ItemsKeys(f, s.items[..n], x);
      }
    } else if FieldKeys(f, s) != [] {
      RecordKeys(f, s.v, x);
    }
  }

  lemma {:induction false} FieldsHaveKeys(d: Desc, m: seq<Slot>, k: nat, x: bytes)
    requires WF(d) && Shape(d, m) && k <= |d.fields| && EncFrom(d, m, k).Some? && |EncFrom(d, m, k).value| < TWO_32
    ensures Keys(EncFrom(d, m, k).value + x) == Plus(KeysFrom(d, m, k), Keys(x))
    decreases |d.fields| - k
  {
    hide EncFrom, EncField, Keys, FieldKeys, WF, Shape;
    FromStep(d, m, k);
    PlusPlus([], [], Keys(x));
    assert [] + x == x;
    if k < |d.fields| {
      var f, s := d.fields[k], SlotAt(d, m, k);
      var e, rest := EncField(f, s).value, EncFrom(d, m, k + 1).value;
      assert e + rest + x == e + (rest + x);
      FieldHasKeys(f, s, rest + x);
      FieldsHaveKeys(d, m, k + 1, x);
      PlusPlus(FieldKeys(f, s), KeysFrom(d, m, k + 1), Keys(x));
    }
  }

  /**
    A message read without its table: the keys of all its records, in the order of the table. A field that is
    present has one record, an array of numbers one packed record, any other array one for each item.
   */
  lemma MessageHasKeys(d: Desc, m: seq<Slot>)
    requires WF(d) && Shape(d, m) && EncMessage(d, m).Some? && |EncMessage(d, m).value| < TWO_32
    ensures Keys(EncMessage(d, m).value) == Some(KeysFrom(d, m, 0))
  {
    hide EncFrom, Keys, WF, Shape;
    var e := EncMessage(d, m).value;
    FieldsHaveKeys(d, m, 0, []);
    assert e + [] == e;
    assert Keys([]) == Some([]) by { NoKeys(); }
    assert KeysFrom(d, m, 0) + [] == KeysFrom(d, m, 0);
  }

  lemma NoKeys()
    ensures Keys([]) == Some([])
  {
  }

  // ---------- Readers that do not know a field ----------

  /** The decoder of a table with none of the keys goes over the bytes without a trace. */
  lemma {:induction false} KeysSkipped(d: Desc, b: bytes, x: bytes, st: Loop)
    requires WF(d) && LoopShape(d, st) && Keys(b).Some?
    requires forall key | key in Keys(b).value :: key.0 != 0 && FindTag(d.fields, key.0) < 0
    ensures DecLoop(d, b + x, st) == DecLoop(d, x, st)
    decreases |b|
  {
    hide DecTag, Skip, FindTag, WF, LoopShape;
    if b == [] {
      assert b + x == x;
    } else {
      var t := DecTag(b);
      var rest := Skip(t.wt, t.rest).rest;
      assert Keys(b).value[0] == (t.tag, t.wt);
      assert Keys(b).value[1..] == Keys(rest).value;
      TagExtends(b, x);
      SkipExtends(t.wt, t.rest, x);
      KeysSkipped(d, rest, x, st);
    }
  }

  /** Whatever is encoded for a field can be skipped by a decoder that does not know it. */
  lemma RecordSkipped(d: Desc, f: Field, v: Value, x: bytes, st: Loop)
    requires WF(d) && LoopShape(d, st) && FindTag(d.fields, f.tag) < 0
    requires WFField(f) && ShapeValue(f, v) && EncRecord(f, v).Some? && |EncRecord(f, v).value| < TWO_32
    ensures DecLoop(d, EncRecord(f, v).value + x, st) == DecLoop(d, x, st)
  {
    hide DecLoop, EncRecord, FindTag, Keys, WF, LoopShape, WFField, ShapeValue;
    var e := EncRecord(f, v).value;
    RecordKeys(f, v, []);
    assert e + [] == e;
    NoKeys();
    FieldTagOf(f);
    KeysSkipped(d, e, x, st);
  }

  lemma FieldTagOf(f: Field)
    requires WFField(f)
    ensures f.tag != 0
  {
  }

  /** The keys of a message have tags of its table. */
  lemma {:induction false} KeysAreTags(d: Desc, m: seq<Slot>, k: nat, tag: nat, wt: nat)
    requires WF(d) && Shape(d, m) && k <= |d.fields| && (tag, wt) in KeysFrom(d, m, k)
    ensures tag != 0 && FindTag(d.fields, tag) >= 0
    decreases |d.fields| - k
  {
    hide WF, Shape, FindTag, FieldKeys;
    if (tag, wt) in FieldKeys(d.fields[k], SlotAt(d, m, k)) {
      FieldKeyTag(d.fields[k], SlotAt(d, m, k), tag, wt);
    } else {
      KeysAreTags(d, m, k + 1, tag, wt);
    }
  }

  lemma FieldKeyTag(f: Field, s: Slot, tag: nat, wt: nat)
    requires WFField(f) && ShapeSlot(f, s) && (tag, wt) in FieldKeys(f, s)
    ensures tag == f.tag != 0
  {
    if s.Rep? {
      TimesIs(ItemCount(f, s), (f.tag, WireNumber(f.ltype)));
    }
  }

  lemma {:induction false} TimesIs(n: nat, key: (nat, nat))
    ensures forall k | k in Times(n, key) :: k == key
  {
    if n > 0 {
      TimesIs(n - 1, key);
    }
  }

  /** A message of one table goes past the decoder of another one that shares no tag with it. */
  lemma ForeignMessageSkipped(d: Desc, m: seq<Slot>, other: Desc, x: bytes, st: Loop)
    requires WF(d) && Shape(d, m) && EncMessage(d, m).Some? && |EncMessage(d, m).value| < TWO_32
    requires WF(other) && LoopShape(other, st)
    requires forall tag: nat | FindTag(d.fields, tag) >= 0 :: FindTag(other.fields, tag) < 0
    ensures DecLoop(other, EncMessage(d, m).value + x, st) == DecLoop(other, x, st)
  {
    hide DecLoop, EncMessage, FindTag, Keys, KeysFrom, WF, Shape, LoopShape;
    var e := EncMessage(d, m).value;
    MessageHasKeys(d, m);
    forall key | key in Keys(e).value ensures key.0 != 0 && FindTag(other.fields, key.0) < 0 {
      KeysAreTags(d, m, 0, key.0, key.1);
    }
    KeysSkipped(other, e, x, st);
  }
}
