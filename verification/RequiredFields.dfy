/** Which required fields a message brought, and the bitmap that the decoder records them in. */
module RequiredFields {
  import opened Basics
  import opened Message
  import opened DecodeSpec
  import opened Iterator
  import opened RoundTrip

  // ---------- The bitmap ----------

  /** n shifted right by k bits. */
  function Shr(n: nat, k: nat): nat {
    if k == 0 then n else Shr(n / 2, k - 1)
  }

  lemma {:induction false} ShrOnes(n: nat, k: nat)
    requires k <= n
    ensures Shr(Pow2(n) - 1, k) == Pow2(n - k) - 1
  {
    if k > 0 {
      assert (Pow2(n) - 1) / 2 == Pow2(n - 1) - 1;
      ShrOnes(n - 1, k - 1);
    }
  }

  /** Bit r of a bitmap of 32-bit words. */
  predicate Marked(w: seq<nat>, r: nat)
    requires r / 32 < |w|
  {
    Bit(w[r / 32], r % 32)
  }

  /** The two words of fields_seen record exactly the set seen. */
  predicate Records(w: seq<nat>, seen: set<nat>) {
    |w| == 2 && w[0] < TWO_32 && w[1] < TWO_32 &&
    (forall r | r in seen :: r < PB_MAX_REQUIRED_FIELDS) &&
    forall r: nat | r < PB_MAX_REQUIRED_FIELDS :: Marked(w, r) <==> r in seen
  }

  lemma NothingRecorded(w: seq<nat>)
    requires w == [0, 0]
    ensures Records(w, {})
  {
    forall r: nat | r < PB_MAX_REQUIRED_FIELDS ensures !Marked(w, r) {
      BitZero(r % 32);
    }
  }

  /** fields_seen[index >> 5] |= 1 << (index & 31). */
  method Mark(fieldsSeen: array<nat>, index: nat, ghost seen: set<nat>)
    requires Records(fieldsSeen[..], seen) && index < PB_MAX_REQUIRED_FIELDS
    modifies fieldsSeen
    ensures Records(fieldsSeen[..], seen + {index})
  {
    var word, bit := index / 32, index % 32;
    ghost var w := fieldsSeen[..];
    PowerBelow(bit);
    OrWords(w[word], Pow2(bit));
    fieldsSeen[word] := Or(fieldsSeen[word], Pow2(bit));
    MarkedAfter(w, index);
    assert fieldsSeen[..] == w[word := Or(w[word], Pow2(bit))];
  }

  lemma PowerBelow(bit: nat)
    requires bit < 32
    ensures Pow2(bit) < TWO_32
  {
    var word := 32;
    Pow2Value(word);
    Pow2Monotone(bit + 1, word);
  }

  lemma MarkedAfter(w: seq<nat>, index: nat)
    requires |w| == 2 && index < 64
    ensures var w' := w[index / 32 := Or(w[index / 32], Pow2(index % 32))];
            forall r: nat | r < 64 :: Marked(w', r) <==> Marked(w, r) || r == index
  {
    hide Or, Pow2, Bit;
    var w' := w[index / 32 := Or(w[index / 32], Pow2(index % 32))];
    forall r: nat | r < 64 ensures Marked(w', r) <==> Marked(w, r) || r == index {
      BitOr(w[index / 32], Pow2(index % 32), r % 32);
      BitPow2(index % 32, r % 32);
    }
  }

  /** The low k bits of a 32-bit word are set, and no others. */
  predicate LowBits(w: nat, k: nat) {
    forall i: nat | i < 32 :: Bit(w, i) == (i < k)
  }

  /** That is so exactly when the word is all ones shifted right by 32 - k. */
  lemma LowOnes(w: nat, allBits: nat, k: nat)
    requires w < TWO_32 && k <= 32 && allBits == 0xFFFF_FFFF
    ensures w == Shr(allBits, 32 - k) <==> LowBits(w, k)
  {
    hide Pow2, Shr, Bit;
    var word := 32;
    Pow2Value(word);
    ShrOnes(word, word - k);
    var ones := Pow2(k) - 1;
    Pow2Monotone(k, word);
    if w == ones {
      forall i: nat | i < 32 ensures Bit(w, i) == (i < k) { BitAllOnes(k, i); }
    } else if LowBits(w, k) {
      forall i: nat | i < word ensures Bit(w, i) == Bit(ones, i) { BitAllOnes(k, i); }
      BitsDetermine(w, ones, word);
    }
  }

  /** The end-of-message test of pb_decode_noinit: whole words first, then the bits that are left. */
  method CheckRequired(fieldsSeen: array<nat>, count: nat, ghost seen: set<nat>) returns (ok: bool)
    requires Records(fieldsSeen[..], seen) && count <= PB_MAX_REQUIRED_FIELDS
    requires forall r | r in seen :: r < count
    ensures ok <==> forall r: nat | r < count :: r in seen
  {
    hide Shr, Bit;
    var allBits := 0xFFFF_FFFF;
    ghost var w := fieldsSeen[..];
    for i := 0 to count / 32
      invariant forall r: nat | r < 32 * i :: r in seen
    {
      WordFull(w, seen, i, 32, allBits);
      if fieldsSeen[i] != allBits {
        return false;
      }
    }
    if count % 32 != 0 {
      WordFull(w, seen, count / 32, count % 32, allBits);
      if fieldsSeen[count / 32] != Shr(allBits, 32 - count % 32) {
        return false;
      }
    }
    return true;
  }

  /** The test of one word, of which the low k bits are in use. */
  lemma WordFull(w: seq<nat>, seen: set<nat>, i: nat, k: nat, allBits: nat)
    requires allBits == 0xFFFF_FFFF
    requires Records(w, seen) && i < 2 && k <= 32
    requires forall r | r in seen :: r < 32 * i + k || r >= 32 * i + 32
    ensures w[i] == Shr(allBits, 32 - k) <==> forall r: nat | 32 * i <= r < 32 * i + k :: r in seen
    ensures Shr(allBits, 0) == allBits
  {
    hide Bit, Shr;
    LowOnes(w[i], allBits, k);
    ShrNone(allBits);
    forall j: nat | j < 32 ensures Bit(w[i], j) <==> 32 * i + j in seen {
      assert Marked(w, 32 * i + j) <==> 32 * i + j in seen;
      assert (32 * i + j) / 32 == i && (32 * i + j) % 32 == j;
    }
    if w[i] == Shr(allBits, 32 - k) {
      forall r: nat | 32 * i <= r < 32 * i + k ensures r in seen {
        assert Bit(w[i], r - 32 * i);
      }
    }
    if forall r: nat | 32 * i <= r < 32 * i + k :: r in seen {
      forall j: nat | j < 32 ensures Bit(w[i], j) <==> j < k {
        var r := 32 * i + j;
        assert Bit(w[i], j) <==> r in seen;
      }
    }
  }

  lemma ShrNone(allBits: nat)
    ensures Shr(allBits, 0) == allBits
  {
  }

  // ---------- Counting the required fields ----------

  /**
    The number of required fields, found by running the iterator to the end of the table from
    wherever decoding left it.
   */
  method CountRequired(iter: FieldIter) returns (count: nat)
    requires iter.Valid() && forall i | 0 <= i < |iter.fields| :: iter.fields[i].tag != 0
    modifies iter
    ensures count == RequiredBefore(iter.fields, |iter.fields|)
  {
    var lastIsRequired := false;
    var more := true;
    count := 0;
    while more
      invariant iter.Valid()
      invariant !more ==> iter.pos == 0 && (iter.fields == [] ==> count == 0)
      invariant !more && iter.fields != [] ==> count == RequiredBefore(iter.fields, |iter.fields| - 1)
      invariant !more && iter.fields != [] ==> lastIsRequired == iter.fields[|iter.fields| - 1].htype.Required?
      decreases more, |iter.fields| - iter.pos
    {
      count := iter.requiredFieldIndex;
      lastIsRequired := iter.pos >= |iter.fields| || iter.fields[iter.pos].htype.Required?;
      more := iter.Next();
    }
    if lastIsRequired && iter.Tag() != 0 {
      count := count + 1;
    }
  }

  // ---------- What the test means ----------

  /** The tags of the fields that the loop reads. */
  function TagsRead(d: Desc, b: bytes, st: Loop): set<nat>
    requires WF(d) && LoopShape(d, st)
    decreases |b|
  {
    if b == [] then {}
    else
      var t := DecTag(b);
      if !t.TagOk? then {}
      else
        var s := DecStep(d, t.tag, t.wt, t.rest, st);
        if s.Bad? then {} else {t.tag} + TagsRead(d, s.rest, s.v)
  }

  /** Entry i is one of the first 64 required fields. */
  predicate Checked(d: Desc, i: nat)
    requires i < |d.fields|
  {
    d.fields[i].htype.Required? && RequiredBefore(d.fields, i) < 64
  }

  lemma {:induction false} RequiredBeforeGrows(fs: seq<Field>, i: nat, j: nat)
    requires i < j <= |fs|
    ensures RequiredBefore(fs, i) + (if fs[i].htype.Required? then 1 else 0) <= RequiredBefore(fs, j)
  {
    if i + 1 < j {
      RequiredBeforeGrows(fs, i, j - 1);
    }
  }

  lemma StepSeen(d: Desc, tag: nat, wt: nat, b: bytes, st: Loop, i: nat)
    requires WF(d) && LoopShape(d, st) && DecStep(d, tag, wt, b, st).Got? && i < |d.fields| && Checked(d, i)
    ensures RequiredBefore(d.fields, i) in DecStep(d, tag, wt, b, st).v.seen <==>
            RequiredBefore(d.fields, i) in st.seen || d.fields[i].tag == tag
  {
    hide DecField, Skip, FindTag, Shape;
    var k := FindTag(d.fields, tag);
    if k >= 0 {
      if i < k {
        RequiredBeforeGrows(d.fields, i, k);
        assert d.fields[i].tag != d.fields[k].tag;
      } else if k < i {
        RequiredBeforeGrows(d.fields, k, i);
        assert d.fields[k].tag != d.fields[i].tag;
      }
    }
  }

  lemma {:induction false} LoopSeen(d: Desc, b: bytes, st: Loop, i: nat)
    requires WF(d) && LoopShape(d, st) && DecLoop(d, b, st).Got? && i < |d.fields| && Checked(d, i)
    ensures RequiredBefore(d.fields, i) in DecLoop(d, b, st).v.seen <==>
            RequiredBefore(d.fields, i) in st.seen || d.fields[i].tag in TagsRead(d, b, st)
    decreases |b|
  {
    hide DecStep, DecTag, WF, Shape;
    if b != [] && DecTag(b).TagOk? {
      var t := DecTag(b);
      StepSeen(d, t.tag, t.wt, t.rest, st, i);
      var s := DecStep(d, t.tag, t.wt, t.rest, st);
      LoopSeen(d, s.rest, s.v, i);
    }
  }

  /**
    pb_decode_noinit succeeds exactly when its fields can be decoded, its last fixed-count
    array is complete and each of the first 64 required fields occurred on the wire.
   */
  lemma RequiredCheckExact(d: Desc, b: bytes, m: seq<Slot>)
    requires WF(d) && Shape(d, m)
    ensures DecNoInit(d, b, m).Got? <==>
            DecLoop(d, b, Start(m)).Got? && FixedDone(d, DecLoop(d, b, Start(m)).v) &&
            forall i: nat | i < |d.fields| && Checked(d, i) :: d.fields[i].tag in TagsRead(d, b, Start(m))
  {
    hide DecLoop, WF, Shape, TagsRead;
    var r := DecLoop(d, b, Start(m));
    if r.Got? {
      forall i: nat | i < |d.fields| && Checked(d, i)
        ensures RequiredBefore(d.fields, i) in r.v.seen <==> d.fields[i].tag in TagsRead(d, b, Start(m))
        ensures RequiredBefore(d.fields, i) < RequiredBefore(d.fields, |d.fields|)
      {
        LoopSeen(d, b, Start(m), i);
        RequiredBeforeGrows(d.fields, i, |d.fields|);
      }
      if forall i: nat | i < |d.fields| && Checked(d, i) :: d.fields[i].tag in TagsRead(d, b, Start(m)) {
        forall q: nat | q < RequiredBefore(d.fields, |d.fields|) && q < PB_MAX_REQUIRED_FIELDS ensures q in r.v.seen {
          var j := RequiredIs(d.fields, q, |d.fields|);
          assert Checked(d, j);
        }
      }
    }
  }
}
