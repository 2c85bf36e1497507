/**
  What the decoder makes of a byte string: the struct it leaves and the bytes it does not
  read, or Bad where it reports an error.
 */
module DecodeSpec {
  import opened Basics
  import opened Varint
  import opened Scalars
  import opened Message
  import opened EncodeSpec

  // ---------- Tags, skipping, framing ----------

  /** NoTag stands for the zero byte that ends a message. */
  datatype TagResult = TagError | NoTag(rest: bytes) | TagOk(tag: nat, wt: nat, rest: bytes)

  function DecTag(b: bytes): (r: TagResult)
    ensures r.NoTag? ==> |r.rest| < |b|
    ensures r.TagOk? ==> |r.rest| < |b| && r.wt < 8 && (r.tag, r.wt) != (0, 0)
  {
    match Varint32(b)
    case Bad => TagError
    case Got(n, rest) => if n == 0 then NoTag(rest) else TagOk(n / 8, n % 8, rest)
  }

  function Take(n: nat, b: bytes): (r: Parsed<bytes>)
    ensures r.Got? ==> b == r.v + r.rest && |r.v| == n
  {
    if n <= |b| then Got(b[..n], b[n..]) else Bad
  }

  /** A length-delimited record: its content and what follows it. */
  function Frame(b: bytes): (r: Parsed<bytes>)
    ensures r.Got? ==> |r.v| + |r.rest| < |b|
  {
    match Varint32(b)
    case Bad => Bad
    case Got(n, rest) => Take(n, rest)
  }

  function SkipVarint(b: bytes): (r: Parsed<()>)
    ensures r.Got? ==> |r.rest| < |b|
  {
    if b == [] then Bad else if b[0] < 128 then Got((), b[1..]) else SkipVarint(b[1..])
  }

  function Skip(wt: nat, b: bytes): (r: Parsed<()>)
    ensures r.Got? ==> |r.rest| <= |b|
  {
    if wt == WT_VARINT then SkipVarint(b)
    else if wt == WT_64BIT then Drop(Take(8, b))
    else if wt == WT_STRING then Drop(Frame(b))
    else if wt == WT_32BIT then Drop(Take(4, b))
    else Bad
  }

  function Drop(p: Parsed<bytes>): (r: Parsed<()>)
    ensures r.Got? <==> p.Got?
    ensures r.Got? ==> r.rest == p.rest
  {
    if p.Bad? then Bad else Got((), p.rest)
  }

  // ---------- Data items ----------

  function DecScalar(f: Field, b: bytes): (r: Parsed<int>)
    requires Packable(f.ltype) && WFType(f)
    ensures r.Got? ==> ShapeValue(f, Int(r.v)) && |r.rest| < |b|
  {
    match f.ltype
    case Bool => (
      match Varint32(b)
      case Bad => Bad
      case Got(n, rest) => Got(if n != 0 then 1 else 0, rest))
    case VarInt => (
      match Varint64(b)
      case Bad => Bad
      case Got(n, rest) =>
        var v := if f.dataSize == 8 then Signed64(n) else Signed32(Low32(n));
        if SignedFits(f.dataSize, v) then Got(v, rest) else Bad)
    case UVarInt => (
      match Varint64(b)
      case Bad => Bad
      case Got(n, rest) => if UnsignedFits(f.dataSize, n) then Got(n, rest) else Bad)
    case SVarInt => (
      match Varint64(b)
      case Bad => Bad
      case Got(n, rest) =>
        var v := UnZigZag(n);
        if SignedFits(f.dataSize, v) then Got(v, rest) else Bad)
    case Fixed32 => Word(4, b)
    case Fixed64 => Word(8, b)
  }

  function Word(n: nat, b: bytes): (r: Parsed<int>)
    requires n > 0
    ensures r.Got? ==> |r.rest| < |b| && (n == 4 || n == 8 ==> UnsignedFits(n, r.v))
  {
    match Take(n, b)
    case Bad => Bad
    case Got(w, rest) =>
      FromLittleInverse(w);
      Words();
      Got(FromLittle(w), rest)
  }

  /** Bytes, strings and fixed-length bytes; prev is the buffer that is written to. */
  function DecBlob(f: Field, prev: bytes, b: bytes): (r: Parsed<bytes>)
    requires f.ltype.Bytes? || f.ltype.String? || f.ltype.FixedLengthBytes?
    requires !f.ltype.Bytes? ==> |prev| == f.dataSize
    ensures r.Got? ==> ShapeValue(f, Blob(r.v)) && |r.rest| < |b|
  {
    match Varint32(b)
    case Bad => Bad
    case Got(n, rest) =>
      match f.ltype
      case Bytes => if n > PB_SIZE_MAX || n + BYTES_HEADER > f.dataSize then Bad else Take(n, rest)
      case String =>
        if Low32(n + 1) < n || Low32(n + 1) > f.dataSize then Bad
        else (
          match Take(n, rest)
          case Bad => Bad
          case Got(c, rest') => Got(c + [0] + prev[n + 1..], rest'))
      case _ =>
        if n > PB_SIZE_MAX then Bad
        else if n == 0 then Got(Zeros(f.dataSize), rest)
        else if n != f.dataSize then Bad
        else Take(n, rest)
  }

  /** Integers written to consecutive items from index size on; all of b has to be used. */
  function DecPacked(f: Field, b: bytes, items: seq<Value>, size: nat): (r: Option<(seq<Value>, nat)>)
    requires Packable(f.ltype) && WFType(f)
    requires size <= |items| && forall j | 0 <= j < |items| :: ShapeValue(f, items[j])
    ensures r.Some? ==> |r.value.0| == |items| && size <= r.value.1 <= |items|
    ensures r.Some? ==> forall j | 0 <= j < |items| :: ShapeValue(f, r.value.0[j])
    decreases |b|
  {
    if b == [] then Some((items, size))
    else if size >= |items| then None
    else
      match DecScalar(f, b)
      case Bad => None
      case Got(v, rest) => DecPacked(f, rest, items[size := Int(v)], size + 1)
  }

  // ---------- Fields and messages ----------

  /** The entry with the given tag, or -1. */
  function FindTag(fs: seq<Field>, tag: nat): (i: int)
    ensures -1 <= i < |fs|
    ensures i >= 0 ==> fs[i].tag == tag
    ensures i < 0 ==> forall j | 0 <= j < |fs| :: fs[j].tag != tag
  {
    if fs == [] then -1
    else
      var n := |fs| - 1;
      if fs[n].tag == tag then n else FindTag(fs[..n], tag)
  }

  /** How many required fields precede entry i. */
  function RequiredBefore(fs: seq<Field>, i: nat): (n: nat)
    requires i <= |fs|
    ensures n <= i
  {
    if i == 0 then 0 else RequiredBefore(fs, i - 1) + if fs[i - 1].htype.Required? then 1 else 0
  }

  /**
    The state of the field loop: the struct, the required fields seen, the fixed-count array
    being received (-1 for none) with the number of its items so far, and whether a zero
    tag ended the message.
   */
  datatype Loop = Loop(m: seq<Slot>, seen: set<nat>, fixed: int, fixedSize: nat, ended: bool)

  predicate LoopShape(d: Desc, st: Loop) {
    Shape(d, st.m) && -1 <= st.fixed < |d.fields| &&
    (st.fixed >= 0 ==> st.fixedSize <= d.fields[st.fixed].arraySize)
  }

  /** The last fixed-count array that was started has all of its items. */
  predicate FixedDone(d: Desc, st: Loop)
    requires LoopShape(d, st)
  {
    st.fixed >= 0 ==> st.fixedSize == d.fields[st.fixed].arraySize
  }

  function DecValue(f: Field, prev: Value, b: bytes): (r: Parsed<Value>)
    requires WFField(f) && ShapeValue(f, prev)
    ensures r.Got? ==> ShapeValue(f, r.v) && |r.rest| < |b|
    decreases |b|, 0
  {
    if Packable(f.ltype) then
      match DecScalar(f, b)
      case Bad => Bad
      case Got(v, rest) => Got(Int(v), rest)
    else if f.ltype.SubMessage? then
      match Frame(b)
      case Bad => Bad
      case Got(body, rest) =>
        var d := f.ptr.desc;
        var start := if f.htype.Repeated? then DefaultMessage(d, prev.slots) else prev.slots;
        match DecNoInit(d, body, start)
        case Bad => Bad
        case Got(m, _) => Got(Sub(m), rest)
    else
      match DecBlob(f, prev.b, b)
      case Bad => Bad
      case Got(v, rest) => Got(Blob(v), rest)
  }

  /** The content of a union before one of its members is decoded into it. */
  function UnionStart(f: Field, s: Slot): (v: Value)
    requires WFField(f) && f.htype.OneOf? && ShapeSlot(f, s)
    ensures ShapeValue(f, v)
  {
    if f.ltype.SubMessage? then DefaultValue(f, ZeroValue(f))
    else if s.which == f.tag then s.v
    else ZeroValue(f)
  }

  /** decode_static_field for entry i; for a fixed-count array the size is the loop's own. */
  function DecField(d: Desc, i: nat, wt: nat, b: bytes, st: Loop): (r: Parsed<Loop>)
    requires WF(d) && LoopShape(d, st) && i < |d.fields|
    requires FixedCount(d.fields[i]) ==> st.fixed == i
    ensures r.Got? ==> LoopShape(d, r.v) && |r.rest| <= |b|
    ensures r.Got? ==> r.v.fixed == st.fixed && r.v.seen == st.seen && r.v.ended == st.ended
    decreases |b|, 2
  {
    hide WF, Shape, WFField, ShapeValue, Packable;
    var f, s := d.fields[i], SlotAt(d, st.m, i);
    if f.htype.Repeated? then
      if wt == WT_STRING && Packable(f.ltype) then DecPackedField(d, i, b, st) else DecItem(d, i, b, st)
    else if f.htype.OneOf? then
      match DecValue(f, UnionStart(f, s), b)
      case Bad => Bad
      case Got(v, rest) => Got(PutSlot(d, i, Union(f.tag, v), st), rest)
    else
      match DecValue(f, s.v, b)
      case Bad => Bad
      case Got(v, rest) => Got(PutSlot(d, i, if s.Opt? then Opt(true, v) else Single(v), st), rest)
  }

  /** The slot of entry i, with what is known about it. */
  function SlotAt(d: Desc, m: seq<Slot>, i: nat): (s: Slot)
    requires WF(d) && Shape(d, m) && i < |d.fields|
    ensures s == m[SlotOf(d.fields, i)]
    ensures WFField(d.fields[i]) && ShapeSlot(d.fields[i], s)
  {
    m[SlotOf(d.fields, i)]
  }

  /** The number of items an array field has received: its count variable or the loop's. */
  function SizeAt(d: Desc, st: Loop, i: nat): nat
    requires WF(d) && LoopShape(d, st) && i < |d.fields| && d.fields[i].htype.Repeated?
  {
    if FixedCount(d.fields[i]) then st.fixedSize else SlotAt(d, st.m, i).count
  }

  /** A packed record of a repeated integer field. */
  function DecPackedField(d: Desc, i: nat, b: bytes, st: Loop): (r: Parsed<Loop>)
    requires WF(d) && LoopShape(d, st) && i < |d.fields|
    requires d.fields[i].htype.Repeated? && Packable(d.fields[i].ltype)
    requires FixedCount(d.fields[i]) ==> st.fixed == i
    ensures r.Got? ==> LoopShape(d, r.v) && |r.rest| < |b|
    ensures r.Got? ==> r.v.(m := st.m, fixedSize := st.fixedSize) == st
  {
    var f, s, size := d.fields[i], SlotAt(d, st.m, i), SizeAt(d, st, i);
    match Frame(b)
    case Bad => Bad
    case Got(body, rest) =>
      if size > f.arraySize then (if body == [] then Got(st, rest) else Bad)
      else
        match DecPacked(f, body, s.items, size)
        case None => Bad
        case Some((items, size')) => Got(PutItems(d, i, items, size', st), rest)
  }

  /** One item of a repeated field in a record of its own. */
  function DecItem(d: Desc, i: nat, b: bytes, st: Loop): (r: Parsed<Loop>)
    requires WF(d) && LoopShape(d, st) && i < |d.fields| && d.fields[i].htype.Repeated?
    requires FixedCount(d.fields[i]) ==> st.fixed == i
    ensures r.Got? ==> LoopShape(d, r.v) && |r.rest| < |b|
    ensures r.Got? ==> r.v.(m := st.m, fixedSize := st.fixedSize) == st
    decreases |b|, 1
  {
    var f, s, size := d.fields[i], SlotAt(d, st.m, i), SizeAt(d, st, i);
    if size >= f.arraySize then Bad
    else
      match DecValue(f, s.items[size], b)
      case Bad => Bad
      case Got(v, rest) => Got(PutItems(d, i, s.items[size := v], size + 1, st), rest)
  }

  /** Stores a slot for entry i. */
  function PutSlot(d: Desc, i: nat, s: Slot, st: Loop): (r: Loop)
    requires WF(d) && LoopShape(d, st) && i < |d.fields|
    requires ShapeSlot(d.fields[i], s)
    requires d.fields[i].htype.OneOf? ==> s.which == d.fields[i].tag
    ensures LoopShape(d, r) && r.(m := st.m) == st
  {
    ShapeUpdate(d, st.m, i, s);
    st.(m := st.m[SlotOf(d.fields, i) := s])
  }

  /** Stores the items of an array and its size, in its count variable or in the loop's. */
  function PutItems(d: Desc, i: nat, items: seq<Value>, size: nat, st: Loop): (r: Loop)
    requires WF(d) && LoopShape(d, st) && i < |d.fields| && d.fields[i].htype.Repeated?
    requires FixedCount(d.fields[i]) ==> st.fixed == i
    requires |items| == d.fields[i].arraySize >= size
    requires forall j | 0 <= j < |items| :: ShapeValue(d.fields[i], items[j])
    ensures LoopShape(d, r) && r.(m := st.m, fixedSize := st.fixedSize) == st
  {
    if FixedCount(d.fields[i]) then
      var s := Rep(SlotAt(d, st.m, i).count, items);
      PutSlot(d, i, s, st.(fixedSize := size))
    else PutSlot(d, i, Rep(size, items), st)
  }

  /** The bookkeeping before a known field is decoded: fixed-count arrays and required fields. */
  function Enter(d: Desc, i: nat, st: Loop): (r: Option<Loop>)
    requires LoopShape(d, st) && i < |d.fields|
    ensures r.Some? ==> LoopShape(d, r.value) && r.value.m == st.m && r.value.ended == st.ended
    ensures r.Some? && FixedCount(d.fields[i]) ==> r.value.fixed == i
  {
    var f := d.fields[i];
    if FixedCount(f) && st.fixed != i then
      if FixedDone(d, st) then Some(st.(fixed := i, fixedSize := 0)) else None
    else if f.htype.Required? && RequiredBefore(d.fields, i) < PB_MAX_REQUIRED_FIELDS then
      Some(st.(seen := st.seen + {RequiredBefore(d.fields, i)}))
    else Some(st)
  }

  /** One field after its tag. */
  function DecStep(d: Desc, tag: nat, wt: nat, b: bytes, st: Loop): (r: Parsed<Loop>)
    requires WF(d) && LoopShape(d, st)
    ensures r.Got? ==> LoopShape(d, r.v) && |r.rest| <= |b| && r.v.ended == st.ended
    decreases |b|, 3
  {
    var i := FindTag(d.fields, tag);
    if i >= 0 then
      match Enter(d, i, st)
      case None => Bad
      case Some(st') => DecField(d, i, wt, b, st')
    else if tag == 0 && d.fields == [] then
      // The terminator of an empty table is taken for a bool field with tag 0.
      match Varint32(b)
      case Bad => Bad
      case Got(_, rest) => Got(st, rest)
    else
      match Skip(wt, b)
      case Bad => Bad
      case Got(_, rest) => Got(st, rest)
  }

  function DecLoop(d: Desc, b: bytes, st: Loop): (r: Parsed<Loop>)
    requires WF(d) && LoopShape(d, st)
    ensures r.Got? ==> LoopShape(d, r.v) && |r.rest| <= |b|
    decreases |b|, 4
  {
    if b == [] then Got(st, [])
    else
      match DecTag(b)
      case TagError => Bad
      case NoTag(rest) => Got(st.(ended := true), rest)
      case TagOk(tag, wt, rest) =>
        match DecStep(d, tag, wt, rest, st)
        case Bad => Bad
        case Got(st', rest') => DecLoop(d, rest', st')
  }

  /** Each of the first 64 required fields has been seen. */
  predicate AllSeen(d: Desc, seen: set<nat>) {
    forall r: nat | r < RequiredBefore(d.fields, |d.fields|) && r < PB_MAX_REQUIRED_FIELDS :: r in seen
  }

  function Start(m: seq<Slot>): Loop {
    Loop(m, {}, -1, 0, false)
  }

  /** pb_decode_noinit. */
  function DecNoInit(d: Desc, b: bytes, m: seq<Slot>): (r: Parsed<seq<Slot>>)
    requires WF(d) && Shape(d, m)
    ensures r.Got? ==> Shape(d, r.v) && |r.rest| <= |b|
    decreases |b|, 5
  {
    match DecLoop(d, b, Start(m))
    case Bad => Bad
    case Got(st, rest) => if FixedDone(d, st) && AllSeen(d, st.seen) then Got(st.m, rest) else Bad
  }

  /** pb_decode. */
  function Decode(d: Desc, b: bytes, m: seq<Slot>): (r: Parsed<seq<Slot>>)
    requires WF(d) && Shape(d, m)
    ensures r.Got? ==> Shape(d, r.v) && |r.rest| <= |b|
  {
    DecNoInit(d, b, DefaultMessage(d, m))
  }

  /** pb_decode_delimited. */
  function DecodeDelimited(d: Desc, b: bytes, m: seq<Slot>): (r: Parsed<seq<Slot>>)
    requires WF(d) && Shape(d, m)
    ensures r.Got? ==> Shape(d, r.v) && |r.rest| < |b|
  {
    match Frame(b)
    case Bad => Bad
    case Got(body, rest) =>
      match Decode(d, body, m)
      case Bad => Bad
      case Got(r, _) => Got(r, rest)
  }
}
