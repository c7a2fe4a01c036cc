/** What every decode keeps: the C types of the struct, the limits on its contents, and the
    bounds of every counted array. */
module Preservation {
  import opened Bytes
  import opened Schema
  import opened Varint
  import opened EncodeSpec
  import opened DecodeSpec

  lemma {:induction false} ScalarConforms(f: Field, s: seq<byte>, base: Value)
    requires ValidField(f) && DecodeScalar(f, s, base).Good?
    ensures ConformsValue(f, DecodeScalar(f, s, base).value, true)
  {
    hide DecVarint32, DecVarint, TakeDelimited, ToInt32, ToInt64, Unzigzag, FixedValue, Pow256;
    match f.ltype
    case LFixed32 => FixedValueBound(s[..4]); Pow256Facts();
    case LFixed64 => FixedValueBound(s[..8]); Pow256Facts();
    case LString =>
      var b := TakeDelimited(s).value;
      assert StoreString(base.chars, b)[|b|] == 0;
    case _ =>
  }

  lemma {:induction false} WeakenValue(f: Field, v: Value, strict: bool)
    requires ConformsValue(f, v, true)
    ensures ConformsValue(f, v, strict)
  {
    if !strict { StrictValueConforms(f, v); }
  }

  lemma {:induction false} PackedConforms(f: Field, s: seq<byte>, room: nat, strict: bool)
    requires ValidField(f) && DecodePackedData(f, s, room).Some?
    ensures forall k :: 0 <= k < |DecodePackedData(f, s, room).value|
                        ==> ConformsValue(f, DecodePackedData(f, s, room).value[k], strict)
    decreases room
  {
    hide DecodeScalar, ConformsValue, ZeroValue;
    if s != [] {
      var r := DecodeScalar(f, s, ZeroValue(f));
      ScalarConforms(f, s, ZeroValue(f));
      WeakenValue(f, r.value, strict);
      PackedConforms(f, r.rest, room - 1, strict);
    }
  }

  /** A destination that decoding may start from: an array element is set to its defaults first. */
  ghost predicate BaseConforms(f: Field, base: Value, strict: bool) {
    if f.htype.Repeated? then ConformsSpare(f, base, strict) else ConformsValue(f, base, strict)
  }

  lemma {:induction false} ValueConforms(f: Field, s: seq<byte>, base: Value, strict: bool)
    requires ValidField(f) && DecodeValue(f, s, base).Good? && BaseConforms(f, base, strict)
    ensures ConformsValue(f, DecodeValue(f, s, base).value, strict)
    decreases |s|, 0
  {
    hide DecodeScalar, DecodeNoInit, TakeDelimited, Defaults;
    if f.ltype.LSubmessage? {
      var payload := TakeDelimited(s).value;
      if f.htype.Repeated? && !strict {
        assert ConformsSpare(f, base, false) && ConformsValue(f, base, false);
        DefaultsConform(f.sub, base.slots, false);
      }
      NoInitConforms(f.sub, payload, SubBase(f, base), strict);
    } else {
      ScalarConforms(f, s, base);
      WeakenValue(f, DecodeScalar(f, s, base).value, strict);
    }
  }

  lemma {:induction false} ElementsConform(f: Field, wire: nat, s: seq<byte>, count: nat, cells: seq<Value>,
                                           strict: bool)
    requires ValidField(f) && f.htype.Repeated? && DecodeElements(f, wire, s, count, cells).Good?
    requires forall k :: 0 <= k < |cells| ==> ConformsSpare(f, cells[k], strict)
    ensures forall k :: 0 <= k < |DecodeElements(f, wire, s, count, cells).value|
                        ==> ConformsValue(f, DecodeElements(f, wire, s, count, cells).value[k], strict)
    decreases |s|, 1
  {
    hide DecodeValue, DecodePackedData, ConformsValue, ConformsSpare, TakeDelimited;
    if wire == 2 && Packable(f.ltype) {
      var room := if count <= f.arraySize then f.arraySize - count else 0;
      PackedConforms(f, TakeDelimited(s).value, room, strict);
    } else {
      ValueConforms(f, s, cells[0], strict);
    }
  }

  lemma {:induction false} MemberBaseConforms(f: Field, strict: bool)
    requires ValidField(f)
    ensures ConformsValue(f, MemberBase(f), strict)
  {
    if f.ltype.LSubmessage? { InitDefaultWellFormed(f.sub); } else { ZeroConforms(f); }
    WeakenValue(f, MemberBase(f), strict);
  }

  lemma {:induction false} DeliveredConforms(f: Field, slot: Slot, fixedCount: nat, vs: seq<Value>, strict: bool)
    requires f.htype.Repeated? && ConformsSlot(f, slot, strict)
    requires |vs| <= |CellsFrom(f, slot, fixedCount)| && (HasSizeField(f) || fixedCount <= |slot.items|)
    requires forall k :: 0 <= k < |vs| ==> ConformsValue(f, vs[k], strict)
    requires CountOf(f, slot, fixedCount) <= f.arraySize ==> CountOf(f, slot, fixedCount) + |vs| <= f.arraySize
    ensures ConformsSlot(f, Delivered(f, slot, fixedCount, vs), strict)
  {
    hide ConformsValue, ConformsSpare;
  }

  lemma {:induction false} FieldConforms(f: Field, wire: nat, s: seq<byte>, slot: Slot, fixedCount: nat, strict: bool)
    requires ValidField(f) && ConformsSlot(f, slot, strict)
    requires DecodeField(f, wire, s, slot, fixedCount).Good?
    ensures ConformsSlot(f, DecodeField(f, wire, s, slot, fixedCount).value.0, strict)
    ensures f.htype.Oneof? ==> DecodeField(f, wire, s, slot, fixedCount).value.0.which == f.tag
    decreases |s|, 2
  {
    hide DecodeValue, DecodeElements, ConformsValue, ConformsSpare, MemberBase, ValidField, Delivered, CountOf;
    match f.htype
    case Required => ValueConforms(f, s, slot.v, strict);
    case Optional => ValueConforms(f, s, if HasSizeField(f) then slot.ov else slot.v, strict);
    case Repeated =>
      var count, cells := CountOf(f, slot, fixedCount), CellsFrom(f, slot, fixedCount);
      if !HasSizeField(f) {
        forall k | 0 <= k < |slot.items| ensures ConformsSpare(f, slot.items[k], strict) {
          ItemSpared(f, slot.items[k], strict);
        }
      }
      ElementsConform(f, wire, s, count, cells, strict);
      DeliveredConforms(f, slot, fixedCount, DecodeElements(f, wire, s, count, cells).value, strict);
    case Oneof =>
      MemberBaseConforms(f, strict);
      ValueConforms(f, s, MemberBase(f), strict);
  }

  /** Replacing the slot of one field by a conforming one keeps the struct conforming. */
  lemma {:induction false} StoreConforms(fields: seq<Field>, m: seq<Slot>, i: nat, slot: Slot, strict: bool)
    requires ValidSchema(fields) && ConformsMsg(fields, m, strict) && i < |fields|
    requires ConformsSlot(fields[i], slot, strict)
    requires fields[i].htype.Oneof? ==> slot.which == fields[i].tag
    ensures SlotIdx(fields, i) < |m| && ConformsMsg(fields, m[SlotIdx(fields, i) := slot], strict)
  {
    hide ConformsValue, SlotIdx;
    SlotInRange(fields, i);
    forall j | 0 <= j < |fields|
      ensures SlotIdx(fields, j) < |m|
      ensures ConformsSlot(fields[j], m[SlotIdx(fields, i) := slot][SlotIdx(fields, j)], strict)
    {
      assert ConformsSlot(fields[j], m[SlotIdx(fields, j)], strict);
      if j != i && SlotIdx(fields, j) == SlotIdx(fields, i) {
        if i < j { SlotShared(fields, i, j); } else { SlotShared(fields, j, i); }
        DifferentTags(fields, i, j);
      }
    }
  }

  lemma {:induction false} DifferentTags(fields: seq<Field>, i: nat, j: nat)
    requires ValidSchema(fields) && i < |fields| && j < |fields| && i != j
    ensures fields[i].tag != fields[j].tag
  {
    if i < j { assert fields[i].tag != fields[j].tag; } else { assert fields[j].tag != fields[i].tag; }
  }

  lemma {:induction false} TurnConforms(fields: seq<Field>, s: seq<byte>, st: State, strict: bool)
    requires ValidSchema(fields) && StateFor(fields, st) && ConformsMsg(fields, st.m, strict)
    requires DecodeTurn(fields, s, st).Next?
    ensures ConformsMsg(fields, DecodeTurn(fields, s, st).st.m, strict)
    decreases |s|, 0
  {
    hide DecodeTurn, DecodeKnown, DecodeField, DecVarint32, FindField, ConformsSlot, SlotIdx, EnterField;
    TurnParts(fields, s, st);
    var key, s1 := DecVarint32(s).value, DecVarint32(s).rest;
    match FindField(fields, key / 8)
    case None =>
    case Some(i) =>
      KnownParts(fields, i, key % 8, s1, st);
      var slot, count := st.m[SlotIdx(fields, i)], EnterField(fields, i, st).value.fixedCount;
      FieldConforms(fields[i], key % 8, s1, slot, count, strict);
      StoreConforms(fields, st.m, i, DecodeField(fields[i], key % 8, s1, slot, count).value.0, strict);
  }

  lemma {:induction false} LoopConforms(fields: seq<Field>, s: seq<byte>, st: State, strict: bool)
    requires ValidSchema(fields) && StateFor(fields, st) && ConformsMsg(fields, st.m, strict)
    requires DecodeLoop(fields, s, st).LoopDone?
    ensures ConformsMsg(fields, DecodeLoop(fields, s, st).st.m, strict)
    decreases |s|, 1
  {
    hide DecodeTurn, ConformsMsg, ValidSchema;
    if s != [] && DecodeTurn(fields, s, st).Next? {
      var n := DecodeTurn(fields, s, st);
      TurnConforms(fields, s, st, strict);
      LoopConforms(fields, n.rest, n.st, strict);
    }
  }

  /** Decoding any bytes at all into a struct of the right C type leaves one of the right C
      type, and decoding into a well-formed struct leaves a well-formed one. */
  lemma {:induction false} NoInitConforms(fields: seq<Field>, s: seq<byte>, m: seq<Slot>, strict: bool)
    requires ValidSchema(fields) && ConformsMsg(fields, m, strict) && DecodeNoInit(fields, s, m).Good?
    ensures ConformsMsg(fields, DecodeNoInit(fields, s, m).value, strict)
    decreases |s|, 2
  {
    hide DecodeLoop, ConformsSlot, RequiredPresent;
    LoopConforms(fields, s, InitialState(m), strict);
  }

  /** What `pb_decode` accepts, `pb_encode` can write again, if the destination is within its
      limits once it is set to its defaults. */
  lemma {:induction false} DecodedEncodes(fields: seq<Field>, s: seq<byte>, m: seq<Slot>)
    requires ValidSchema(fields) && Decode(fields, s, m).Good? && WellFormed(fields, Defaults(fields, m))
    ensures WellFormed(fields, Decode(fields, s, m).value)
    ensures EncodeMsg(fields, Decode(fields, s, m).value).Some?
  {
    NoInitConforms(fields, s, Defaults(fields, m), true);
    EncodeMsgSome(fields, Decode(fields, s, m).value);
  }

  /** Two bytes fields in an array without a count. */
  const BLOBS := Field(1, LBytes, Repeated, 0, 0, 8, 2, [], None)

  /** Memory that is not within its limits: the empty input is accepted, the second element keeps a
      size its slot cannot hold, and encoding the result fails. */
  lemma {:induction false} StaleElements()
    ensures var m := [Rep([VBytes([]), VBytes([1, 2, 3, 4, 5])], [])];
            ValidSchema([BLOBS]) && Typed([BLOBS], m)
            && Decode([BLOBS], [], m) == Good(m, []) && EncodeMsg([BLOBS], m) == None
  {
    hide EncodeMsg, DecodeLoop;
    var m := [Rep([VBytes([]), VBytes([1, 2, 3, 4, 5])], [])];
    assert ValidField(BLOBS) && SlotIdx([BLOBS], 0) == 0;
    assert ConformsSlot(BLOBS, m[0], false);
    DefaultsAt([BLOBS], m, 0);
    assert NumSlots([BLOBS]) == 1 && Defaults([BLOBS], m) == m;
    LoopEnds([BLOBS], InitialState(m));
    assert RequiredBefore([BLOBS], 1) == 0;
    StaleRefused(m);
  }

  lemma {:induction false} StaleRefused(m: seq<Slot>)
    requires m == [Rep([VBytes([]), VBytes([1, 2, 3, 4, 5])], [])]
    ensures EncodeMsg([BLOBS], m) == None
  {
    hide EncVarint, EncTag;
    var items := m[0].items;
    assert SlotIdx([BLOBS], 0) == 0 && NumSlots([BLOBS]) == 1;
    assert items[1..] == [items[1]];
    assert EncodeTagged(BLOBS, items[1]) == None;
    assert EncodeUnpacked(BLOBS, items[1..]) == None;
    assert EncodeUnpacked(BLOBS, items) == None;
    assert EncodeField(BLOBS, m[0]) == None && EncodeFrom([BLOBS], m, 0) == None;
  }

  // ---------- counts of arrays ----------

  /** The slot of counted array `i` holds an array within its size. */
  predicate CountWithin(fields: seq<Field>, i: nat, m: seq<Slot>)
    requires i < |fields|
  {
    SlotIdx(fields, i) < |m| && m[SlotIdx(fields, i)].Rep? && |m[SlotIdx(fields, i)].items| <= fields[i].arraySize
  }

  lemma {:induction false} TurnCountWithin(fields: seq<Field>, i: nat, s: seq<byte>, st: State)
    requires i < |fields| && fields[i].htype.Repeated? && HasSizeField(fields[i])
    requires StateFor(fields, st) && CountWithin(fields, i, st.m) && DecodeTurn(fields, s, st).Next?
    ensures CountWithin(fields, i, DecodeTurn(fields, s, st).st.m)
  {
    hide DecodeTurn, DecodeKnown, DecodeElements, DecodeValue, DecVarint32, FindField, SlotIdx, EnterField;
    TurnParts(fields, s, st);
    var key, s1 := DecVarint32(s).value, DecVarint32(s).rest;
    match FindField(fields, key / 8)
    case None =>
    case Some(j) =>
      KnownParts(fields, j, key % 8, s1, st);
      if j < i && SlotIdx(fields, i) == SlotIdx(fields, j) { SlotShared(fields, j, i); }
      if i < j && SlotIdx(fields, i) == SlotIdx(fields, j) { SlotShared(fields, i, j); }
  }

  lemma {:induction false} LoopCountWithin(fields: seq<Field>, i: nat, s: seq<byte>, st: State)
    requires i < |fields| && fields[i].htype.Repeated? && HasSizeField(fields[i])
    requires StateFor(fields, st) && CountWithin(fields, i, st.m) && DecodeLoop(fields, s, st).LoopDone?
    ensures CountWithin(fields, i, DecodeLoop(fields, s, st).st.m)
    decreases |s|
  {
    hide DecodeTurn, CountWithin;
    if s != [] && DecodeTurn(fields, s, st).Next? {
      var n := DecodeTurn(fields, s, st);
      TurnCountWithin(fields, i, s, st);
      LoopCountWithin(fields, i, n.rest, n.st);
    }
  }

  /** A counted array that starts within `array_size` ends within it, whatever the input and
      whatever the rest of the struct holds. */
  lemma {:induction false} CountStaysWithin(fields: seq<Field>, i: nat, s: seq<byte>, m: seq<Slot>)
    requires i < |fields| && fields[i].htype.Repeated? && HasSizeField(fields[i])
    requires |m| == NumSlots(fields) && CountWithin(fields, i, m) && DecodeNoInit(fields, s, m).Good?
    ensures CountWithin(fields, i, DecodeNoInit(fields, s, m).value)
  {
    hide DecodeLoop, CountWithin, RequiredPresent;
    LoopCountWithin(fields, i, s, InitialState(m));
  }
}
