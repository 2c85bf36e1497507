/** Data items and framing survive the round trip. */
module RoundTripItems {
  import opened Basics
  import opened Varint
  import opened Scalars
  import opened Message
  import opened EncodeSpec
  import opened DecodeSpec
  import opened Logical

  lemma TagRoundTrip(wt: nat, tag: nat, x: bytes)
    requires 0 < tag < TWO_29 && wt < 8
    ensures DecTag(Tag(wt, tag) + x) == TagOk(tag, wt, x)
    ensures Tag(wt, tag) != []
  {
    hide Varint32, EncVarint;
    EncVarintSpells(8 * tag + wt);
    Varint32RoundTrip(8 * tag + wt, x);
  }

  lemma FrameRoundTrip(b: bytes, x: bytes)
    requires |b| < TWO_32
    ensures Frame(Delimited(b) + x) == Got(b, x)
  {
    hide Varint32, EncVarint;
    Varint32RoundTrip(|b|, b + x);
    assert Delimited(b) + x == EncVarint(|b|) + (b + x);
    assert (b + x)[..|b|] == b && (b + x)[|b|..] == x;
  }

  lemma TakeAll(b: bytes, x: bytes)
    ensures Take(|b|, b + x) == Got(b, x)
  {
    assert (b + x)[..|b|] == b && (b + x)[|b|..] == x;
  }

  /** The value of an integer field after a round trip: a bool comes back as 0 or 1. */
  function Normal(f: Field, i: int): int {
    if f.ltype.Bool? then (if i != 0 then 1 else 0) else i
  }

  lemma ScalarRoundTrip(f: Field, i: int, x: bytes)
    requires Packable(f.ltype) && WFType(f) && ShapeValue(f, Int(i))
    ensures DecScalar(f, EncScalar(f, i) + x) == Got(Normal(f, i), x)
    ensures EncScalar(f, i) != []
  {
    hide Varint64, Varint32, EncVarint, Little, FromLittle;
    match f.ltype
    case Bool =>
      var n := if i != 0 then 1 else 0;
      Varint32RoundTrip(n, x);
      EncVarintSpells(n);
    case VarInt =>
      SignedRange(f.dataSize, i);
      Varint64RoundTrip(Unsigned64(i), x);
      EncVarintSpells(Unsigned64(i));
    case UVarInt =>
      UnsignedFitsWord(f.dataSize, i);
      Varint64RoundTrip(i, x);
      EncVarintSpells(i);
    case SVarInt =>
      SignedRange(f.dataSize, i);
      ZigZagInverse(i, ZigZag(i));
      Varint64RoundTrip(ZigZag(i), x);
      EncVarintSpells(ZigZag(i));
    case Fixed32 => WordRoundTrip(i, 4, x);
    case Fixed64 => WordRoundTrip(i, 8, x);
  }

  lemma SignedRange(n: nat, i: int)
    requires SignedFits(n, i)
    ensures -TWO_63 <= i < TWO_63
    ensures Signed64(Unsigned64(i)) == i
    ensures n != 8 ==> Signed32(Low32(Unsigned64(i))) == i
  {
  }

  lemma WordRoundTrip(i: nat, n: nat, x: bytes)
    requires n in {4, 8} && UnsignedFits(n, i)
    ensures Word(n, Little(i, n) + x) == Got(i, x)
  {
    hide Little, FromLittle;
    LittleInverse(i, n);
    Words();
    TakeAll(Little(i, n), x);
  }

  /** A terminated string, or any fitting byte array, comes back; an unterminated string is refused. */
  lemma BlobRoundTrip(f: Field, v: Value, prev: bytes, x: bytes)
    requires WFField(f) && ShapeValue(f, v)
    requires f.ltype.Bytes? || f.ltype.String? || f.ltype.FixedLengthBytes?
    requires !f.ltype.Bytes? ==> |prev| == f.dataSize
    requires EncValue(f, v).Some? && |EncValue(f, v).value| < TWO_32
    ensures var r := DecBlob(f, prev, EncValue(f, v).value + x);
            if TermValue(f, v) then r.Got? && r.rest == x && SameValue(f, Blob(r.v), v) else r == Bad
  {
    hide Varint32, EncVarint, CStr, Zeros;
    if f.ltype.String? {
      StringRoundTrip(f, v.b, prev, x);
    } else {
      var c := v.b;
      assert EncValue(f, v).value + x == EncVarint(|c|) + (c + x);
      Varint32RoundTrip(|c|, c + x);
      TakeAll(c, x);
      if f.ltype.FixedLengthBytes? && |c| == 0 {
        assert Zeros(f.dataSize) == c;
      }
    }
  }

  lemma StringRoundTrip(f: Field, v: bytes, prev: bytes, x: bytes)
    requires f.ltype.String? && |prev| == f.dataSize == |v|
    requires |Delimited(CStr(v))| < TWO_32
    ensures var r := DecBlob(f, prev, Delimited(CStr(v)) + x);
            if 0 in v then r.Got? && r.rest == x && CStr(r.v) == CStr(v) else r == Bad
  {
    hide Varint32, EncVarint, CStr;
    var c := CStr(v);
    EncVarintSpells(|c|);
    assert Delimited(c) + x == EncVarint(|c|) + (c + x);
    Varint32RoundTrip(|c|, c + x);
    TakeAll(c, x);
    StringTerminated(v);
    if 0 in v {
      CStrCut(c, prev[|c| + 1..]);
    }
  }

  lemma StringTerminated(b: bytes)
    ensures 0 in b <==> |CStr(b)| < |b|
  {
    assert |CStr(b)| == |b| ==> CStr(b) == b;
  }

  /** Nothing behind a NUL belongs to the string. */
  lemma {:induction false} CStrCut(c: bytes, tail: bytes)
    ensures CStr(c + [0] + tail) == CStr(c)
    ensures (forall i | 0 <= i < |c| :: c[i] != 0) ==> CStr(c) == c
  {
    var b := c + [0] + tail;
    if c == [] {
      assert b[0] == 0;
    } else {
      assert b[0] == c[0] && b[1..] == c[1..] + [0] + tail;
      CStrCut(c[1..], tail);
    }
  }

  // ---------- Packed arrays ----------

  /** items with items[from..to] replaced by the round-trip values of v[from..to]. */
  predicate Received(f: Field, items: seq<Value>, v: seq<Value>, n: nat)
    requires WFField(f) && n <= |items| == |v|
    requires forall j | 0 <= j < |v| :: ShapeValue(f, v[j]) && ShapeValue(f, items[j])
  {
    forall j | 0 <= j < n :: SameValue(f, items[j], v[j])
  }

  lemma {:induction false} PackedRoundTrip(f: Field, items: seq<Value>, v: seq<Value>, from: nat, to: nat)
    returns (items': seq<Value>)
    requires WFField(f) && Packable(f.ltype)
    requires from <= to <= |items| == |v|
    requires forall j | 0 <= j < |v| :: ShapeValue(f, v[j]) && ShapeValue(f, items[j])
    requires Received(f, items, v, from)
    ensures DecPacked(f, EncPacked(f, v[from..to]), items, from) == Some((items', to))
    ensures |items'| == |v| && forall j | 0 <= j < |v| :: ShapeValue(f, items'[j])
    ensures Received(f, items', v, to)
    decreases |v| - from
  {
    hide EncScalar, DecScalar;
    var b := EncPacked(f, v[from..to]);
    items' := items;
    if from < to {
      assert ShapeValue(f, v[from]);
      var i, rest := v[from].i, EncPacked(f, v[from..to][1..]);
      assert v[from..to][1..] == v[from + 1..to];
      ScalarRoundTrip(f, i, rest);
      assert b == EncScalar(f, i) + rest && b != [];
      NormalFits(f, i);
      items' := PackedRoundTrip(f, items[from := Int(Normal(f, i))], v, from + 1, to);
    }
  }

  lemma NormalFits(f: Field, i: int)
    requires WFField(f) && Packable(f.ltype) && ShapeValue(f, Int(i))
    ensures ShapeValue(f, Int(Normal(f, i))) && SameValue(f, Int(Normal(f, i)), Int(i))
  {
  }
}
