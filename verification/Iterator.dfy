/** The field iterator that the encoder and the decoder share: a cursor that wraps around the field table. */
module Iterator {
  import opened Message
  import opened DecodeSpec

  // ---------- Addresses ----------

  /** The bytes a field's data takes in the struct. */
  function MemberSize(f: Field): nat {
    if f.htype.Repeated? then f.dataSize * f.arraySize else f.dataSize
  }

  /** The data address of entry i, accumulated from the entries before it. */
  function Address(fs: seq<Field>, base: nat, i: nat): nat
    requires i <= |fs|
  {
    if i == |fs| then base
    else if i == 0 then base + fs[0].dataOffset
    else if InUnionWithPrevious(fs, i) then Address(fs, base, i - 1)
    else Address(fs, base, i - 1) + MemberSize(fs[i - 1]) + fs[i].dataOffset
  }

  /**
    The table was generated with the PB_DATAOFFSET macros for a struct whose members have the
    given offsets: FIRST for the first entry, UNION inside a union, OTHER for the rest.
   */
  predicate TableFor(fs: seq<Field>, offsets: seq<nat>) {
    |offsets| == |fs| &&
    (fs != [] ==> fs[0].dataOffset == offsets[0]) &&
    forall i | 1 <= i < |fs| :: EntryFor(fs, offsets, i)
  }

  predicate EntryFor(fs: seq<Field>, offsets: seq<nat>, i: nat)
    requires 1 <= i < |fs| == |offsets|
  {
    var prev := fs[i - 1];
    if prev.htype.OneOf? && fs[i].htype.OneOf? && fs[i].dataOffset == 0xFFFF_FFFF then offsets[i] == offsets[i - 1]
    else offsets[i] == offsets[i - 1] + (if prev.htype.Repeated? then prev.arraySize else 1) * prev.dataSize + fs[i].dataOffset
  }

  /** The accumulated address of every entry is that of its struct member. */
  lemma {:induction false} AddressIsOffset(fs: seq<Field>, offsets: seq<nat>, base: nat, i: nat)
    requires TableFor(fs, offsets) && i < |fs|
    ensures Address(fs, base, i) == base + offsets[i]
  {
    if i > 0 {
      AddressIsOffset(fs, offsets, base, i - 1);
      assert EntryFor(fs, offsets, i);
    }
  }

  /** Entries that share a slot are at the same address. */
  lemma {:induction false} SlotAddress(fs: seq<Field>, base: nat, i: nat)
    requires i < |fs|
    ensures Address(fs, base, SlotOf(fs, i)) == Address(fs, base, i)
  {
    if InUnionWithPrevious(fs, i) {
      SlotAddress(fs, base, i - 1);
    }
  }

  // ---------- The iterator ----------

  class FieldIter {
    const fields: seq<Field>
    const base: nat
    var pos: nat
    var requiredFieldIndex: nat
    var pData: int
    var pSize: int

    /** Everything but the position follows from the position. In an empty table it is that of the terminator. */
    ghost predicate Valid()
      reads this
    {
      SharedWhich(fields) &&
      (if fields == [] then pos == 0 else pos < |fields|) &&
      requiredFieldIndex == RequiredBefore(fields, pos) &&
      pData == Address(fields, base, pos) &&
      pSize == pData + SizeOffset()
    }

    function SizeOffset(): int
      reads this
    {
      if pos < |fields| then fields[pos].sizeOffset else 0
    }

    /** The tag of the entry at the position; the terminator's is 0. */
    function Tag(): nat
      reads this
    {
      if pos < |fields| then fields[pos].tag else 0
    }

    constructor (fields: seq<Field>, base: nat)
      requires SharedWhich(fields)
      ensures Valid() && this.fields == fields && this.base == base && pos == 0
    {
      this.fields := fields;
      this.base := base;
      pos := 0;
      requiredFieldIndex := 0;
      pData := base + if fields == [] then 0 else fields[0].dataOffset;
      pSize := base + if fields == [] then 0 else fields[0].dataOffset + fields[0].sizeOffset;
    }

    /** pb_field_iter_begin. */
    method Begin() returns (more: bool)
      requires SharedWhich(fields)
      modifies this
      ensures Valid() && pos == 0
      ensures more <==> fields != []
    {
      pos := 0;
      requiredFieldIndex := 0;
      pData := base + if fields == [] then 0 else fields[0].dataOffset;
      pSize := pData + SizeOffset();
      more := fields != [];
    }

    /** pb_field_iter_next: to the next entry, or from the last one back to the first. */
    method Next() returns (more: bool)
      requires Valid()
      modifies this
      ensures Valid()
      ensures more <==> old(pos) + 1 < |fields|
      ensures pos == if more then old(pos) + 1 else 0
    {
      if pos >= |fields| {
        return false;
      }
      var prev := fields[pos];
      pos := pos + 1;
      if pos == |fields| {
        var _ := Begin();
        return false;
      }
      if InUnionWithPrevious(fields, pos) {
        // Inside a union neither address moves.
        return true;
      }
      var prevSize := prev.dataSize;
      if prev.htype.Repeated? {
        prevSize := prevSize * prev.arraySize;
      }
      if prev.htype.Required? {
        requiredFieldIndex := requiredFieldIndex + 1;
      }
      pData := pData + prevSize + fields[pos].dataOffset;
      pSize := pData + SizeOffset();
      more := true;
    }
  
    /**
      pb_field_iter_find: from any position, around the table. When no entry has the tag, the
      iterator is back where it was. An empty table's terminator is found under tag 0.
     */
    method Find(tag: nat) returns (found: bool)
      requires Valid()
      modifies this
      ensures Valid()
      ensures found <==> (exists i | 0 <= i < |fields| :: fields[i].tag == tag) || (fields == [] && tag == 0)
      ensures found ==> Tag() == tag
      ensures !found ==> pos == old(pos) && requiredFieldIndex == old(requiredFieldIndex) &&
                         pData == old(pData) && pSize == old(pSize)
    {
      var start := pos;
      ghost var steps := 0;
      while true
        invariant Valid()
        invariant if fields == [] then steps == 0 else steps < |fields|
        invariant fields != [] ==> pos == if start + steps < |fields| then start + steps else start + steps - |fields|
        invariant forall i | start <= i < start + steps && i < |fields| :: fields[i].tag != tag
        invariant forall i | 0 <= i < start + steps - |fields| :: fields[i].tag != tag
        decreases |fields| - steps
      {
        if Tag() == tag {
          return true;
        }
        var _ := Next();
        steps := steps + 1;
        if pos == start {
          return false;
        }
      }
    }
  }
}
