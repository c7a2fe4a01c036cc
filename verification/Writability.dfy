/** What `pb_encode` refuses, exactly, and a condition on structs under which it refuses none that
    decoding makes of them. */
module Writability {
  import opened Bytes
  import opened Schema
  import opened Varint
  import opened EncodeSpec
  import opened DecodeSpec
  import opened Preservation

  // ---------- what can be encoded ----------

  ghost predicate FitsValue(f: Field, v: Value)
    decreases f, 0
  {
    match f.ltype
    case LBytes => v.VBytes? && |v.content| + BYTES_OFFSET <= f.dataSize
    case LSubmessage => v.VMsg? && Fits(f.sub, v.slots)
    case _ => true
  }

  ghost predicate FitsSlot(f: Field, s: Slot)
    decreases f, 1
  {
    match f.htype
    case Required => s.Single? && FitsValue(f, s.v)
    case Optional =>
      if HasSizeField(f) then s.Opt? && (s.has ==> FitsValue(f, s.ov))
      else s.Single? && (IsDefault(f, s) || FitsValue(f, s.v))
    case Repeated =>
      s.Rep? && |s.items| <= f.arraySize && forall k :: 0 <= k < |s.items| ==> FitsValue(f, s.items[k])
    case Oneof => s.Union? && (s.which == f.tag ==> FitsValue(f, s.member))
  }

  /** Wherever the encoder writes, at every depth, bytes fit their slot and counts their array. */
  ghost predicate Fits(fields: seq<Field>, m: seq<Slot>)
    decreases fields
  {
    |m| == NumSlots(fields)
    && forall i :: 0 <= i < |fields| ==> SlotIdx(fields, i) < |m| && FitsSlot(fields[i], m[SlotIdx(fields, i)])
  }

  lemma {:induction false} ValueEncodable(f: Field, v: Value)
    requires ConformsValue(f, v, false)
    ensures EncodeValue(f, v).Some? <==> FitsValue(f, v)
    decreases f, 0
  {
    if f.ltype.LSubmessage? { EncodableExact(f.sub, v.slots); }
  }

  lemma {:induction false} UnpackedEncodable(f: Field, items: seq<Value>)
    requires forall k :: 0 <= k < |items| ==> ConformsValue(f, items[k], false)
    ensures EncodeUnpacked(f, items).Some? <==> forall k :: 0 <= k < |items| ==> FitsValue(f, items[k])
    decreases f, 1, items
  {
    hide EncodeValue, FitsValue, ConformsValue;
    if items != [] {
      ValueEncodable(f, items[0]);
      UnpackedEncodable(f, items[1..]);
      assert forall k :: 1 <= k < |items| ==> items[k] == items[1..][k - 1];
      assert forall k :: 0 <= k < |items| - 1 ==> items[1..][k] == items[k + 1];
    }
  }

  lemma {:induction false} PackableFits(f: Field, v: Value)
    requires Packable(f.ltype)
    ensures FitsValue(f, v)
  {
  }

  lemma {:induction false} SlotEncodable(f: Field, s: Slot)
    requires ConformsSlot(f, s, false)
    ensures EncodeField(f, s).Some? <==> FitsSlot(f, s)
    decreases f, 2
  {
    hide EncodeValue, EncodeUnpacked, EncodePackedData, FitsValue, ConformsValue, ConformsSpare, IsDefault;
    match f.htype
    case Required =>
      ValueEncodable(f, s.v);
    case Optional => ValueEncodable(f, if HasSizeField(f) then s.ov else s.v);
    case Repeated =>
      if Packable(f.ltype) {
        PackedDataSome(f, s.items);
        forall k | 0 <= k < |s.items| ensures FitsValue(f, s.items[k]) { PackableFits(f, s.items[k]); }
      } else {
        UnpackedEncodable(f, s.items);
      }
    case Oneof => if s.which == f.tag { ValueEncodable(f, s.member); }
  }

  lemma {:induction false} FromEncodable(fields: seq<Field>, m: seq<Slot>, i: nat)
    requires Typed(fields, m) && i <= |fields|
    ensures EncodeFrom(fields, m, i).Some?
       <==> forall j :: i <= j < |fields| ==> SlotIdx(fields, j) < |m| && FitsSlot(fields[j], m[SlotIdx(fields, j)])
    decreases fields, 0, |fields| - i
  {
    hide EncodeField, FitsSlot, SlotIdx, ConformsSlot;
    if i < |fields| {
      SlotEncodable(fields[i], m[SlotIdx(fields, i)]);
      FromEncodable(fields, m, i + 1);
    }
  }

  /** A struct with the C types of its table has an encoding if and only if what is written fits. */
  lemma {:induction false} EncodableExact(fields: seq<Field>, m: seq<Slot>)
    requires Typed(fields, m)
    ensures EncodeMsg(fields, m).Some? <==> Fits(fields, m)
    decreases fields, 1
  {
    hide ConformsSlot, FitsSlot, SlotIdx, EncodeFrom;
    FromEncodable(fields, m, 0);
  }

  // ---------- what still fits after any decode ----------

  ghost predicate WritableValue(f: Field, v: Value)
    decreases f, 0
  {
    match f.ltype
    case LBytes => v.VBytes? && |v.content| + BYTES_OFFSET <= f.dataSize
    case LSubmessage => v.VMsg? && Writable(f.sub, v.slots)
    case _ => true
  }

  /** An element that may be decoded over once it is set to its defaults. */
  ghost predicate WritableSpare(f: Field, v: Value)
    decreases f, 1
  {
    f.ltype.LSubmessage? ==> v.VMsg? && Writable(f.sub, Defaults(f.sub, v.slots))
  }

  ghost predicate WritableSlot(f: Field, s: Slot)
    decreases f, 2
  {
    match f.htype
    case Required => s.Single? && WritableValue(f, s.v)
    case Optional =>
      if HasSizeField(f) then s.Opt? && WritableValue(f, s.ov) else s.Single? && WritableValue(f, s.v)
    case Repeated =>
      s.Rep? && |s.items| <= f.arraySize
      && (forall k :: 0 <= k < |s.items| ==> FitsValue(f, s.items[k]) && WritableSpare(f, s.items[k]))
      && (forall k :: 0 <= k < |s.spare| ==> WritableSpare(f, s.spare[k]))
    case Oneof => s.Union? && (s.which == f.tag ==> FitsValue(f, s.member))
  }

  /** Bytes fit their slot and counts their array, also in submessages that are not written; the
      elements of an array fit if they are written, and are writable once set to their defaults.
      Strings need no NUL for this. */
  ghost predicate Writable(fields: seq<Field>, m: seq<Slot>)
    decreases fields
  {
    |m| == NumSlots(fields)
    && forall i :: 0 <= i < |fields| ==> SlotIdx(fields, i) < |m| && WritableSlot(fields[i], m[SlotIdx(fields, i)])
  }

  lemma {:induction false} WritableValueFits(f: Field, v: Value)
    requires WritableValue(f, v)
    ensures FitsValue(f, v)
    decreases f, 0
  {
    if f.ltype.LSubmessage? { WritableFits(f.sub, v.slots); }
  }

  lemma {:induction false} WritableFits(fields: seq<Field>, m: seq<Slot>)
    requires Writable(fields, m)
    ensures Fits(fields, m)
    decreases fields
  {
    hide WritableValue, WritableSpare, FitsValue, SlotIdx, IsDefault;
    forall i | 0 <= i < |fields| ensures SlotIdx(fields, i) < |m| && FitsSlot(fields[i], m[SlotIdx(fields, i)]) {
      var f, s := fields[i], m[SlotIdx(fields, i)];
      assert WritableSlot(f, s);
      match f.htype
      case Required => WritableValueFits(f, s.v);
      case Optional => WritableValueFits(f, if HasSizeField(f) then s.ov else s.v);
      case _ =>
    }
  }

  // ---------- well-formed structs are writable ----------

  lemma {:induction false} ConformsWritable(f: Field, v: Value)
    requires ValidField(f) && ConformsValue(f, v, true)
    ensures WritableValue(f, v) && FitsValue(f, v)
    decreases f, 0
  {
    if f.ltype.LSubmessage? { WellFormedWritable(f.sub, v.slots); }
    WritableValueFits(f, v);
  }

  lemma {:induction false} SpareWritable(f: Field, v: Value)
    requires ValidField(f) && ConformsSpare(f, v, true)
    ensures WritableSpare(f, v)
    decreases f, 1
  {
    if f.ltype.LSubmessage? { WellFormedWritable(f.sub, Defaults(f.sub, v.slots)); }
  }

  lemma {:induction false} SlotWritable(f: Field, s: Slot)
    requires ValidField(f) && ConformsSlot(f, s, true)
    ensures WritableSlot(f, s)
    decreases f, 2
  {
    hide ConformsValue, ConformsSpare, WritableValue, WritableSpare, FitsValue, ValidField;
    match f.htype
    case Required => ConformsWritable(f, s.v);
    case Optional => ConformsWritable(f, if HasSizeField(f) then s.ov else s.v);
    case Repeated =>
      forall k | 0 <= k < |s.items| ensures FitsValue(f, s.items[k]) && WritableSpare(f, s.items[k]) {
        ConformsWritable(f, s.items[k]);
        ItemSpared(f, s.items[k], true);
        SpareWritable(f, s.items[k]);
      }
      forall k | 0 <= k < |s.spare| ensures WritableSpare(f, s.spare[k]) { SpareWritable(f, s.spare[k]); }
    case Oneof => if s.which == f.tag { ConformsWritable(f, s.member); }
  }

  lemma {:induction false} WellFormedWritable(fields: seq<Field>, m: seq<Slot>)
    requires ValidSchema(fields) && WellFormed(fields, m)
    ensures Writable(fields, m)
    decreases fields
  {
    hide ConformsSlot, WritableSlot, ValidField;
    forall i | 0 <= i < |fields| ensures SlotIdx(fields, i) < |m| && WritableSlot(fields[i], m[SlotIdx(fields, i)]) {
      assert ValidField(fields[i]) && ConformsSlot(fields[i], m[SlotIdx(fields, i)], true);
      SlotWritable(fields[i], m[SlotIdx(fields, i)]);
    }
  }

  // ---------- setting defaults keeps that ----------

  lemma {:induction false} DefaultValueWritable(f: Field, v: Value)
    requires ValidField(f) && WritableValue(f, v)
    ensures WritableValue(f, DefaultValue(f, v))
    decreases f, 0
  {
    if f.ltype.LSubmessage? { DefaultsWritable(f.sub, v.slots); }
  }

  lemma {:induction false} SlotDefaultWritable(f: Field, s: Slot)
    requires ValidField(f) && WritableSlot(f, s)
    ensures WritableSlot(f, DefaultSlot(f, s))
    decreases f, 1
  {
    hide WritableValue, WritableSpare, FitsValue, DefaultValue;
    match f.htype
    case Required => DefaultValueWritable(f, s.v);
    case Optional => DefaultValueWritable(f, Held(s));
    case Repeated =>
    case Oneof => assert f.tag != 0;
  }

  lemma {:induction false} DefaultsWritable(fields: seq<Field>, m: seq<Slot>)
    requires ValidSchema(fields) && Writable(fields, m)
    ensures Writable(fields, Defaults(fields, m))
    decreases fields
  {
    hide WritableSlot, DefaultSlot, ValidField;
    forall i | 0 <= i < |fields|
      ensures SlotIdx(fields, i) < |Defaults(fields, m)|
      ensures WritableSlot(fields[i], Defaults(fields, m)[SlotIdx(fields, i)])
    {
      DefaultsAt(fields, m, i);
      assert ValidField(fields[i]) && WritableSlot(fields[i], m[SlotIdx(fields, i)]);
      SlotDefaultWritable(fields[i], m[SlotIdx(fields, i)]);
    }
  }

  // ---------- decoding keeps that ----------

  /** A destination that decoding may start from. */
  ghost predicate BaseWritable(f: Field, base: Value) {
    f.ltype.LSubmessage? ==> if f.htype.Repeated? then WritableSpare(f, base) else WritableValue(f, base)
  }

  lemma {:induction false} ValueWritable(f: Field, s: seq<byte>, base: Value)
    requires ValidField(f) && BaseWritable(f, base) && DecodeValue(f, s, base).Good?
    ensures WritableValue(f, DecodeValue(f, s, base).value)
    decreases |s|, 0
  {
    hide DecodeScalar, DecodeNoInit, TakeDelimited, Defaults;
    if f.ltype.LSubmessage? {
      NoInitWritable(f.sub, TakeDelimited(s).value, SubBase(f, base));
    } else {
      ScalarConforms(f, s, base);
    }
  }

  /** A decoded value as an element. */
  lemma {:induction false} ElementWritable(f: Field, v: Value)
    requires ValidField(f) && WritableValue(f, v)
    ensures FitsValue(f, v) && WritableSpare(f, v)
  {
    WritableValueFits(f, v);
    if f.ltype.LSubmessage? { DefaultsWritable(f.sub, v.slots); }
  }

  lemma {:induction false} PackableWritable(f: Field, v: Value)
    requires Packable(f.ltype)
    ensures FitsValue(f, v) && WritableSpare(f, v)
  {
  }

  lemma {:induction false} ElementsWritable(f: Field, wire: nat, s: seq<byte>, count: nat, cells: seq<Value>)
    requires ValidField(f) && f.htype.Repeated? && DecodeElements(f, wire, s, count, cells).Good?
    requires forall k :: 0 <= k < |cells| ==> WritableSpare(f, cells[k])
    ensures forall k :: 0 <= k < |DecodeElements(f, wire, s, count, cells).value| ==>
              var v := DecodeElements(f, wire, s, count, cells).value[k]; FitsValue(f, v) && WritableSpare(f, v)
    decreases |s|, 1
  {
    hide DecodeValue, DecodePackedData, TakeDelimited, WritableSpare, WritableValue, FitsValue, ValidField;
    var vs := DecodeElements(f, wire, s, count, cells).value;
    if wire == 2 && Packable(f.ltype) {
      forall k | 0 <= k < |vs| ensures FitsValue(f, vs[k]) && WritableSpare(f, vs[k]) { PackableWritable(f, vs[k]); }
    } else {
      ValueWritable(f, s, cells[0]);
      ElementWritable(f, vs[0]);
    }
  }

  lemma {:induction false} DeliveredWritable(f: Field, slot: Slot, fixedCount: nat, vs: seq<Value>)
    requires f.htype.Repeated? && WritableSlot(f, slot)
    requires |vs| <= |CellsFrom(f, slot, fixedCount)| && (HasSizeField(f) || fixedCount <= |slot.items|)
    requires forall k :: 0 <= k < |vs| ==> FitsValue(f, vs[k]) && WritableSpare(f, vs[k])
    requires HasSizeField(f) ==> |slot.items| + |vs| <= f.arraySize
    ensures WritableSlot(f, Delivered(f, slot, fixedCount, vs))
  {
    hide FitsValue, WritableSpare;
  }

  lemma {:induction false} FieldWritable(f: Field, wire: nat, s: seq<byte>, slot: Slot, fixedCount: nat)
    requires ValidField(f) && WritableSlot(f, slot) && DecodeField(f, wire, s, slot, fixedCount).Good?
    ensures WritableSlot(f, DecodeField(f, wire, s, slot, fixedCount).value.0)
    ensures f.htype.Oneof? ==> DecodeField(f, wire, s, slot, fixedCount).value.0.which == f.tag
    decreases |s|, 2
  {
    hide DecodeValue, DecodeElements, WritableValue, WritableSpare, FitsValue, MemberBase, ValidField, Delivered;
    hide CountOf;
    match f.htype
    case Required => ValueWritable(f, s, slot.v);
    case Optional => ValueWritable(f, s, if HasSizeField(f) then slot.ov else slot.v);
    case Repeated =>
      var count, cells := CountOf(f, slot, fixedCount), CellsFrom(f, slot, fixedCount);
      ElementsWritable(f, wire, s, count, cells);
      CountIsItems(f, slot, fixedCount);
      DeliveredWritable(f, slot, fixedCount, DecodeElements(f, wire, s, count, cells).value);
    case Oneof =>
      MemberBaseConforms(f, true);
      ConformsWritable(f, MemberBase(f));
      ValueWritable(f, s, MemberBase(f));
      WritableValueFits(f, DecodeValue(f, s, MemberBase(f)).value);
  }

  lemma {:induction false} CountIsItems(f: Field, slot: Slot, fixedCount: nat)
    requires slot.Rep?
    ensures HasSizeField(f) ==> CountOf(f, slot, fixedCount) == |slot.items|
  {
  }

  lemma {:induction false} StoreWritable(fields: seq<Field>, m: seq<Slot>, i: nat, slot: Slot)
    requires ValidSchema(fields) && Writable(fields, m) && i < |fields| && WritableSlot(fields[i], slot)
    requires fields[i].htype.Oneof? ==> slot.which == fields[i].tag
    ensures SlotIdx(fields, i) < |m| && Writable(fields, m[SlotIdx(fields, i) := slot])
  {
    hide WritableValue, WritableSpare, FitsValue, SlotIdx, ValidField;
    var n := SlotIdx(fields, i);
    forall j | 0 <= j < |fields|
      ensures SlotIdx(fields, j) < |m| && WritableSlot(fields[j], m[n := slot][SlotIdx(fields, j)])
    {
      assert WritableSlot(fields[j], m[SlotIdx(fields, j)]);
      if j != i && SlotIdx(fields, j) == n {
        if i < j { SlotShared(fields, i, j); } else { SlotShared(fields, j, i); }
        DifferentTags(fields, i, j);
      }
    }
  }

  lemma {:induction false} TurnWritable(fields: seq<Field>, s: seq<byte>, st: State)
    requires ValidSchema(fields) && StateFor(fields, st) && Writable(fields, st.m)
    requires DecodeTurn(fields, s, st).Next?
    ensures Writable(fields, DecodeTurn(fields, s, st).st.m)
    decreases |s|, 0
  {
    hide DecodeTurn, DecodeKnown, DecodeField, DecVarint32, FindField, WritableSlot, SlotIdx, EnterField;
    TurnParts(fields, s, st);
    var key, s1 := DecVarint32(s).value, DecVarint32(s).rest;
    match FindField(fields, key / 8)
    case None =>
    case Some(i) =>
      KnownParts(fields, i, key % 8, s1, st);
      var slot, count := st.m[SlotIdx(fields, i)], EnterField(fields, i, st).value.fixedCount;
      FieldWritable(fields[i], key % 8, s1, slot, count);
      StoreWritable(fields, st.m, i, DecodeField(fields[i], key % 8, s1, slot, count).value.0);
  }

  lemma {:induction false} LoopWritable(fields: seq<Field>, s: seq<byte>, st: State)
    requires ValidSchema(fields) && StateFor(fields, st) && Writable(fields, st.m)
    requires DecodeLoop(fields, s, st).LoopDone?
    ensures Writable(fields, DecodeLoop(fields, s, st).st.m)
    decreases |s|, 1
  {
    hide DecodeTurn, Writable, ValidSchema;
    if s != [] && DecodeTurn(fields, s, st).Next? {
      var n := DecodeTurn(fields, s, st);
      TurnWritable(fields, s, st);
      LoopWritable(fields, n.rest, n.st);
    }
  }

  /** Decoding any bytes into a writable struct leaves a writable one. */
  lemma {:induction false} NoInitWritable(fields: seq<Field>, s: seq<byte>, m: seq<Slot>)
    requires ValidSchema(fields) && Writable(fields, m) && DecodeNoInit(fields, s, m).Good?
    ensures Writable(fields, DecodeNoInit(fields, s, m).value)
    decreases |s|, 2
  {
    hide DecodeLoop, WritableSlot, RequiredPresent;
    LoopWritable(fields, s, InitialState(m));
  }
}
