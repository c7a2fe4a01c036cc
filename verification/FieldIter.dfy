/** The circular field iterator of `pb_common.c`, with its relative offset arithmetic. */
module FieldIter {
  import opened Bytes
  import opened Schema
  import opened DecodeSpec

  /** Where `pSize` points: into the struct, or at the decoder's local `fixed_count_size`. */
  datatype SizePtr = InStruct(offset: int) | FixedCountSize

  /** What the field takes up in the struct: all elements of an array. */
  function Extent(f: Field): nat {
    if f.htype.Repeated? then f.dataSize * f.arraySize else f.dataSize
  }

  /** The address of field `i`, relative to the start of the struct. */
  function PData(fields: seq<Field>, i: nat): (p: nat)
    requires i < |fields|
    decreases i
  {
    if i == 0 then fields[0].dataOffset
    else if SharesUnion(fields[i - 1], fields[i]) then PData(fields, i - 1)
    else PData(fields, i - 1) + Extent(fields[i - 1]) + fields[i].dataOffset
  }

  /** The address of the has-flag, count or which-field of field `i`. */
  function PSize(fields: seq<Field>, i: nat): int
    requires i < |fields|
    decreases i
  {
    if i > 0 && SharesUnion(fields[i - 1], fields[i]) then PSize(fields, i - 1)
    else PData(fields, i) + fields[i].sizeOffset
  }

  /** The addresses identify the slots: all members of a oneof have those of their union. */
  lemma {:induction false} SlotAddress(fields: seq<Field>, i: nat, j: nat)
    requires i <= j < |fields| && SlotIdx(fields, i) == SlotIdx(fields, j)
    ensures PData(fields, i) == PData(fields, j) && PSize(fields, i) == PSize(fields, j)
    decreases j
  {
    if i < j {
      SlotIdxMonotone(fields, i, j - 1);
      SlotAddress(fields, i, j - 1);
    }
  }

  /** The addresses of the first field, and of every other by that of the one before it: behind all its
      elements, at the distance the table gives. */
  lemma {:induction false} NextAddress(fields: seq<Field>, i: nat)
    requires i < |fields|
    ensures i == 0 ==> PData(fields, i) == fields[i].dataOffset
    ensures i == 0 ==> PSize(fields, i) == PData(fields, i) + fields[i].sizeOffset
    ensures i > 0 ==>
              var f, g := fields[i - 1], fields[i];
              if f.htype.Oneof? && g.htype.Oneof? && g.dataOffset == 0xFFFF_FFFF
              then PData(fields, i) == PData(fields, i - 1) && PSize(fields, i) == PSize(fields, i - 1)
              else PData(fields, i) == PData(fields, i - 1)
                                       + (if f.htype.Repeated? then f.arraySize else 1) * f.dataSize + g.dataOffset
                   && PSize(fields, i) == PData(fields, i) + g.sizeOffset
  {
  }

  lemma {:induction false} ExtentEnds(fields: seq<Field>, i: nat, j: nat)
    requires i < j < |fields| && !fields[i].htype.Oneof?
    ensures PData(fields, i) + Extent(fields[i]) <= PData(fields, j)
    decreases j
  {
    if i < j - 1 { ExtentEnds(fields, i, j - 1); }
  }

  /** Each element of a field that is not in a oneof ends before any later field starts. */
  lemma {:induction false} FieldsApart(fields: seq<Field>, i: nat, j: nat, k: nat)
    requires i < j < |fields| && !fields[i].htype.Oneof?
    requires k < if fields[i].htype.Repeated? then fields[i].arraySize else 1
    ensures PData(fields, i) + k * fields[i].dataSize + fields[i].dataSize <= PData(fields, j)
  {
    hide PData;
    ExtentEnds(fields, i, j);
    if fields[i].htype.Repeated? { ElementEnds(k, fields[i].arraySize, fields[i].dataSize); }
  }

  lemma {:induction false} ElementEnds(k: nat, n: nat, size: nat)
    requires k < n
    ensures k * size + size <= size * n
  {
    assert size * n == size * (k + 1) + size * (n - k - 1);
    assert size * (n - k - 1) >= 0;
  }

  class Iter {
    const start: seq<Field>
    var pos: nat
    var pData: int
    var pSize: SizePtr
    var requiredIndex: nat

    /** The position is in the table (at the terminator only if it is empty), and everything
        else is what the table says about that position. Only `pSize` of a fixed-count array
        may have been redirected. */
    ghost predicate Valid()
      reads this
    {
      if start == [] then pos == 0 && requiredIndex == 0 && pSize.InStruct?
      else pos < |start|
           && pData == PData(start, pos)
           && requiredIndex == RequiredBefore(start, pos)
           && (Synced() || (pSize == FixedCountSize && IsFixedCount(start[pos])))
    }

    ghost predicate Synced()
      requires start == [] || pos < |start|
      reads this
    {
      start == [] || pSize == InStruct(PSize(start, pos))
    }

    /** `pos->tag`; 0 at the terminator. */
    function Tag(): nat
      reads this
    {
      if pos < |start| then start[pos].tag else 0
    }

    /** `pb_field_iter_begin`. */
    constructor Begin(fields: seq<Field>)
      ensures start == fields && Valid() && pos == 0 && Synced()
    {
      start, pos, requiredIndex := fields, 0, 0;
      pData := if fields == [] then 0 else fields[0].dataOffset;
      pSize := InStruct(if fields == [] then 0 else fields[0].dataOffset + fields[0].sizeOffset);
    }

    method Restart()
      requires start != []
      modifies this
      ensures Valid() && pos == 0 && Synced()
    {
      pos, requiredIndex := 0, 0;
      pData := start[0].dataOffset;
      pSize := InStruct(pData + start[0].sizeOffset);
    }

    /** `pb_field_iter_next`: false when it wraps around to the first field. */
    method Next() returns (more: bool)
      requires Valid()
      modifies this
      ensures Valid() && more == (old(pos) + 1 < |start|)
      ensures pos == if more then old(pos) + 1 else 0
      ensures Synced()
      ensures more && !SharesUnion(start[pos - 1], start[pos]) ==>
                var f := start[pos - 1];
                pData == old(pData) + (if f.htype.Repeated? then f.dataSize * f.arraySize else f.dataSize)
                         + start[pos].dataOffset
    {
      if start == [] { return false; }
      var prev := start[pos];
      pos := pos + 1;
      if pos == |start| {
        Restart();
        return false;
      }
      var prevSize := prev.dataSize;
      if prev.htype.Oneof? && start[pos].htype.Oneof? && start[pos].dataOffset == PB_SIZE_MAX {
        return true;
      } else if prev.htype.Repeated? {
        prevSize := prevSize * prev.arraySize;
      }
      if prev.htype.Required? {
        requiredIndex := requiredIndex + 1;
      }
      pData := pData + prevSize + start[pos].dataOffset;
      pSize := InStruct(pData + start[pos].sizeOffset);
      return true;
    }

    /** `pb_field_iter_find`. Wherever the search starts, it ends at the field with this tag, or
        back where it started when there is none; an empty table has its terminator under tag 0. */
    method Find(tag: nat) returns (found: bool)
      requires Valid() && DistinctTags(start)
      modifies this
      ensures Valid()
      ensures start != [] ==> (found <==> FindField(start, tag).Some?)
      ensures start != [] && found ==> pos == FindField(start, tag).value
      ensures start == [] ==> (found <==> tag == 0)
      ensures !found ==> pos == old(pos)
      ensures Synced() || (found && pos == old(pos) && pSize == old(pSize))
    {
      var begun := pos;
      var again, moved := true, false;
      ghost var wrapped := false;
      while again
        invariant Valid() && begun == old(pos) && (wrapped ==> moved)
        invariant start == [] ==> (moved ==> tag != 0)
        invariant start != [] ==> if wrapped then pos <= begun else begun <= pos && (pos == begun ==> !moved)
        invariant forall k :: 0 <= k < |start| && (if wrapped then k >= begun || k < pos else begun <= k < pos)
                              ==> start[k].tag != tag
        invariant again <==> !moved || pos != begun
        invariant if moved then Synced() else pos == begun && pSize == old(pSize)
        decreases again, if wrapped then begun - pos else |start| + begun - pos
      {
        if Tag() == tag {
          if start != [] { FindUnique(start, pos); }
          return true;
        }
        var more := Next();
        moved := true;
        wrapped := wrapped || !more;
        again := pos != begun;
      }
      return false;
    }
  }
}
