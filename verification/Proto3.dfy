/** Proto3 elision: when leaving a zero field out loses nothing, and so exactly when a
    message survives the round trip. */
module Proto3 {
  import opened Bytes
  import opened Schema
  import opened Varint
  import opened EncodeSpec
  import opened DecodeSpec
  import opened RoundTrip

  /** A table whose proto3 fields have no default `ptr`, or one that is itself zero. A
      nonempty fixed-length byte array is never elided, so its default is free. */
  ghost predicate ElisionSafe(fields: seq<Field>)
    decreases fields
  {
    forall i :: 0 <= i < |fields| ==> ElisionSafeField(fields[i])
  }

  ghost predicate ElisionSafeField(f: Field)
    decreases f
  {
    if f.ltype.LSubmessage? then ElisionSafe(f.sub)
    else f.htype.Optional? && !HasSizeField(f) ==> ZeroDefault(f)
  }

  predicate ZeroDefault(f: Field) {
    f.ltype.LFixedBytes? || f.dflt.None? || IsZeroData(f, f.dflt.value)
  }

  // ---------- semantic equality is an equivalence ----------

  lemma {:induction false} SameValueSym(f: Field, a: Value, b: Value)
    requires SameValue(f, a, b)
    ensures SameValue(f, b, a)
    decreases f, 0
  {
    if f.ltype.LSubmessage? { SameMsgSym(f.sub, a.slots, b.slots); }
  }

  lemma {:induction false} SameSlotSym(f: Field, a: Slot, b: Slot)
    requires SameSlot(f, a, b)
    ensures SameSlot(f, b, a)
    decreases f, 1
  {
    match f.htype
    case Required => SameValueSym(f, a.v, b.v);
    case Optional =>
      if HasSizeField(f) { if a.has { SameValueSym(f, a.ov, b.ov); } } else { SameValueSym(f, a.v, b.v); }
    case Repeated =>
      forall k | 0 <= k < |a.items| ensures SameValue(f, b.items[k], a.items[k]) {
        SameValueSym(f, a.items[k], b.items[k]);
      }
    case Oneof => if a.which == f.tag { SameValueSym(f, a.member, b.member); }
  }

  lemma {:induction false} SameMsgSym(fields: seq<Field>, a: seq<Slot>, b: seq<Slot>)
    requires SameMsg(fields, a, b)
    ensures SameMsg(fields, b, a)
    decreases fields
  {
    hide SlotIdx;
    forall i | 0 <= i < |fields|
      ensures SameSlot(fields[i], b[SlotIdx(fields, i)], a[SlotIdx(fields, i)])
    {
      SameSlotSym(fields[i], a[SlotIdx(fields, i)], b[SlotIdx(fields, i)]);
    }
  }

  lemma {:induction false} SameValueTrans(f: Field, a: Value, b: Value, c: Value)
    requires SameValue(f, a, b) && SameValue(f, b, c)
    ensures SameValue(f, a, c)
    decreases f, 0
  {
    if f.ltype.LSubmessage? { SameMsgTrans(f.sub, a.slots, b.slots, c.slots); }
  }

  lemma {:induction false} SameSlotTrans(f: Field, a: Slot, b: Slot, c: Slot)
    requires SameSlot(f, a, b) && SameSlot(f, b, c)
    ensures SameSlot(f, a, c)
    decreases f, 1
  {
    match f.htype
    case Required => SameValueTrans(f, a.v, b.v, c.v);
    case Optional =>
      if HasSizeField(f) { if a.has { SameValueTrans(f, a.ov, b.ov, c.ov); } }
      else { SameValueTrans(f, a.v, b.v, c.v); }
    case Repeated =>
      forall k | 0 <= k < |a.items| ensures SameValue(f, a.items[k], c.items[k]) {
        SameValueTrans(f, a.items[k], b.items[k], c.items[k]);
      }
    case Oneof => if a.which == f.tag { SameValueTrans(f, a.member, b.member, c.member); }
  }

  lemma {:induction false} SameMsgTrans(fields: seq<Field>, a: seq<Slot>, b: seq<Slot>, c: seq<Slot>)
    requires SameMsg(fields, a, b) && SameMsg(fields, b, c)
    ensures SameMsg(fields, a, c)
    decreases fields
  {
    hide SlotIdx;
    forall i | 0 <= i < |fields|
      ensures SameSlot(fields[i], a[SlotIdx(fields, i)], c[SlotIdx(fields, i)])
    {
      SameSlotTrans(fields[i], a[SlotIdx(fields, i)], b[SlotIdx(fields, i)], c[SlotIdx(fields, i)]);
    }
  }

  // ---------- elision ----------

  /** What `pb_check_proto3_default_value` calls default is semantically the default that
      `pb_message_set_to_defaults` writes, whatever the destination held before. */
  lemma {:induction false} ElisionSound(f: Field, s: Slot, was: Slot)
    requires ValidField(f) && ElisionSafeField(f) && ConformsSlot(f, s, true) && IsDefault(f, s)
    requires ConformsSlot(f, was, false)
    ensures SameSlot(f, s, DefaultSlot(f, was))
    decreases f, 1
  {
    if f.htype.Optional? && !HasSizeField(f) { ZeroDataSound(f, s.v, was.v); }
  }

  lemma {:induction false} ZerosEmpty(n: nat)
    ensures CStr(Zeros(n)) == []
  {
  }

  lemma {:induction false} ZeroDataSound(f: Field, v: Value, was: Value)
    requires ValidField(f) && ConformsValue(f, v, true) && IsZeroData(f, v) && ConformsValue(f, was, false)
    requires if f.ltype.LSubmessage? then ElisionSafe(f.sub) else ZeroDefault(f)
    ensures SameValue(f, v, DefaultValue(f, was))
    decreases f, 0
  {
    if f.ltype.LSubmessage? {
      AllDefaultSound(f.sub, v.slots, was.slots);
    } else {
      ZerosEmpty(f.dataSize);
    }
  }

  lemma {:induction false} AllDefaultAt(fields: seq<Field>, m: seq<Slot>, i: nat, j: nat)
    requires |m| == NumSlots(fields) && i <= j < |fields| && AllDefault(fields, m, i)
    ensures SlotIdx(fields, j) < |m| && IsDefault(fields[j], m[SlotIdx(fields, j)])
    decreases j - i
  {
    hide SlotIdx, IsDefault;
    SlotInRange(fields, j);
    if i < j { AllDefaultAt(fields, m, i + 1, j); }
  }

  lemma {:induction false} AllDefaultSound(fields: seq<Field>, m: seq<Slot>, was: seq<Slot>)
    requires ValidSchema(fields) && ElisionSafe(fields) && WellFormed(fields, m) && Typed(fields, was)
    requires AllDefault(fields, m, 0)
    ensures SameMsg(fields, m, Defaults(fields, was))
    decreases fields
  {
    hide SlotIdx, IsDefault, SameSlot, Defaults, ConformsValue, ConformsSpare;
    forall i | 0 <= i < |fields|
      ensures SlotIdx(fields, i) < |m|
      ensures SameSlot(fields[i], m[SlotIdx(fields, i)], Defaults(fields, was)[SlotIdx(fields, i)])
    {
      AllDefaultAt(fields, m, 0, i);
      DefaultsAt(fields, was, i);
      assert ConformsSlot(fields[i], m[SlotIdx(fields, i)], true);
      assert ConformsSlot(fields[i], was[SlotIdx(fields, i)], false);
      ElisionSound(fields[i], m[SlotIdx(fields, i)], was[SlotIdx(fields, i)]);
    }
  }

  /** For a proto3 scalar the condition on the default is exact: elision loses nothing,
      whatever the value, if and only if the default is zero. */
  lemma {:induction false} ElisionExact(f: Field, was: Slot)
    requires ValidField(f) && f.htype.Optional? && !HasSizeField(f) && !f.ltype.LSubmessage?
    requires ConformsSlot(f, was, false)
    ensures ZeroDefault(f)
       <==> forall s: Slot :: ConformsSlot(f, s, true) && IsDefault(f, s) ==> SameSlot(f, s, DefaultSlot(f, was))
  {
    if ZeroDefault(f) {
      forall s: Slot | ConformsSlot(f, s, true) && IsDefault(f, s) ensures SameSlot(f, s, DefaultSlot(f, was)) {
        ElisionSound(f, s, was);
      }
    } else {
      var z := Single(ZeroValue(f));
      ZerosEmpty(f.dataSize);
      if f.ltype.LString? { assert Zeros(f.dataSize)[0] == 0; }
      assert ConformsSlot(f, z, true) && IsDefault(f, z);
      assert !SameSlot(f, z, DefaultSlot(f, was));
    }
  }

  /** For a field that is left out it does not matter what the destination held. */
  lemma {:induction false} DefaultSlotAlike(f: Field, s: Slot, x: Slot, y: Slot)
    requires IsDefault(f, s) && ConformsSlot(f, x, false) && ConformsSlot(f, y, false)
    ensures SameSlot(f, s, DefaultSlot(f, x)) <==> SameSlot(f, s, DefaultSlot(f, y))
    decreases f, 1
  {
    if f.htype.Optional? && !HasSizeField(f) && f.ltype.LSubmessage? {
      if s.v.VMsg? { DefaultsAlike(f.sub, s.v.slots, x.v.slots, y.v.slots); }
    }
  }

  lemma {:induction false} DefaultsAlike(fields: seq<Field>, m: seq<Slot>, x: seq<Slot>, y: seq<Slot>)
    requires |m| == NumSlots(fields) && AllDefault(fields, m, 0) && Typed(fields, x) && Typed(fields, y)
    ensures SameMsg(fields, m, Defaults(fields, x)) <==> SameMsg(fields, m, Defaults(fields, y))
    decreases fields
  {
    hide SlotIdx, IsDefault, SameSlot, Defaults, ConformsValue, ConformsSpare;
    forall i | 0 <= i < |fields|
      ensures SlotIdx(fields, i) < |m|
      ensures SameSlot(fields[i], m[SlotIdx(fields, i)], Defaults(fields, x)[SlotIdx(fields, i)])
         <==> SameSlot(fields[i], m[SlotIdx(fields, i)], Defaults(fields, y)[SlotIdx(fields, i)])
    {
      AllDefaultAt(fields, m, 0, i);
      DefaultsAt(fields, x, i);
      DefaultsAt(fields, y, i);
      assert ConformsSlot(fields[i], x[SlotIdx(fields, i)], false);
      assert ConformsSlot(fields[i], y[SlotIdx(fields, i)], false);
      DefaultSlotAlike(fields[i], m[SlotIdx(fields, i)], x[SlotIdx(fields, i)], y[SlotIdx(fields, i)]);
    }
  }

  /** An all-default proto3 message of singular fields is written as nothing at all. */
  lemma {:induction false} AllDefaultEncodesEmpty(fields: seq<Field>, m: seq<Slot>, i: nat)
    requires ValidSchema(fields) && Typed(fields, m) && i <= |fields| && AllDefault(fields, m, i)
    ensures EncodeFrom(fields, m, i) == Some([])
    decreases |fields| - i
  {
    hide SlotIdx, EncodeArray, EncodeTagged;
    if i < |fields| {
      SlotInRange(fields, i);
      var f, s := fields[i], m[SlotIdx(fields, i)];
      assert ValidField(f) && ConformsSlot(f, s, false);
      DefaultFieldEmpty(f, s);
      AllDefaultEncodesEmpty(fields, m, i + 1);
    }
  }

  lemma {:induction false} DefaultFieldEmpty(f: Field, s: Slot)
    requires ConformsSlot(f, s, false) && IsDefault(f, s) && (f.htype.Oneof? ==> f.tag > 0)
    ensures EncodeField(f, s) == Some([])
  {
    hide EncodeTagged, EncodeUnpacked, EncodePacked;
  }

  // ---------- the round trip ----------

  /** Every proto3 field the encoder leaves out, at any depth it writes, has the value its
      table default gives it. */
  ghost predicate LosesNothingValue(f: Field, v: Value)
    decreases f, 0
  {
    f.ltype.LSubmessage? ==> v.VMsg? && LosesNothing(f.sub, v.slots)
  }

  ghost predicate LosesNothingSlot(f: Field, s: Slot)
    decreases f, 1
  {
    match s
    case Single(v) =>
      if f.htype.Optional? && IsDefault(f, s) then SameSlot(f, s, DefaultSlot(f, ZeroSlot(f)))
      else LosesNothingValue(f, v)
    case Opt(has, v) => has ==> LosesNothingValue(f, v)
    case Rep(items, _) => forall k :: 0 <= k < |items| ==> LosesNothingValue(f, items[k])
    case Union(which, v) => which == f.tag ==> LosesNothingValue(f, v)
  }

  ghost predicate LosesNothing(fields: seq<Field>, m: seq<Slot>)
    decreases fields
  {
    |m| == NumSlots(fields)
    && forall i :: 0 <= i < |fields| ==>
         SlotIdx(fields, i) < |m| && LosesNothingSlot(fields[i], m[SlotIdx(fields, i)])
  }

  lemma {:induction false} ArrivesValueSame(f: Field, a: Value, b: Value)
    requires ValidField(f) && ArrivesValue(f, a, b)
    ensures SameValue(f, a, b) <==> LosesNothingValue(f, a)
    decreases f, 0
  {
    if f.ltype.LSubmessage? { ArrivesMsgSame(f.sub, a.slots, b.slots); }
  }

  lemma {:induction false} ZeroSlotTyped(f: Field)
    requires ValidField(f) && f.htype.Optional? && !HasSizeField(f)
    ensures ConformsSlot(f, ZeroSlot(f), false)
  {
    ZeroConforms(f);
    StrictValueConforms(f, ZeroValue(f));
  }

  lemma {:induction false} ArrivesSlotSame(f: Field, s: Slot, t: Slot)
    requires ValidField(f) && ArrivesSlot(f, s, t)
    ensures SameSlot(f, s, t) <==> LosesNothingSlot(f, s)
    decreases f, 1
  {
    hide IsDefault, DefaultSlot, ValidField, ConformsValue, ConformsSpare;
    match f.htype
    case Required => ArrivesValueSame(f, s.v, t.v);
    case Optional =>
      if HasSizeField(f) { if s.has { ArrivesValueSame(f, s.ov, t.ov); } }
      else if !IsDefault(f, s) { ArrivesValueSame(f, s.v, t.v); }
      else {
        ZeroSlotTyped(f);
        DefaultSlotAlike(f, s, t, ZeroSlot(f));
      }
    case Repeated =>
      forall k | 0 <= k < |s.items|
        ensures SameValue(f, s.items[k], t.items[k]) <==> LosesNothingValue(f, s.items[k])
      {
        ArrivesValueSame(f, s.items[k], t.items[k]);
      }
    case Oneof => if s.which == f.tag { ArrivesValueSame(f, s.member, t.member); }
  }

  lemma {:induction false} ArrivesMsgSame(fields: seq<Field>, a: seq<Slot>, b: seq<Slot>)
    requires ValidSchema(fields) && ArrivesMsg(fields, a, b)
    ensures SameMsg(fields, a, b) <==> LosesNothing(fields, a)
    decreases fields
  {
    hide SlotIdx, SameSlot, LosesNothingSlot, ArrivesSlot, ValidField;
    forall i | 0 <= i < |fields|
      ensures SlotIdx(fields, i) < |a|
      ensures SameSlot(fields[i], a[SlotIdx(fields, i)], b[SlotIdx(fields, i)])
         <==> LosesNothingSlot(fields[i], a[SlotIdx(fields, i)])
    {
      ArrivesSlotSame(fields[i], a[SlotIdx(fields, i)], b[SlotIdx(fields, i)]);
    }
  }

  /** The message round trip, exactly: for every valid table, every well-formed struct whose
      submessages and packed runs have 32-bit sizes, and whatever the destination holds, decoding
      succeeds and consumes every byte, and the result is semantically equal to the struct if and
      only if the elided proto3 fields have their default values. */
  lemma {:induction false} RoundTripExact(fields: seq<Field>, m: seq<Slot>, was: seq<Slot>)
    requires ValidSchema(fields) && WellFormed(fields, m) && PayloadsFit(fields, m, UINT32) && Typed(fields, was)
    ensures EncodeMsg(fields, m).Some?
    ensures var r := Decode(fields, EncodeMsg(fields, m).value, was);
            r.Good? && r.rest == [] && (SameMsg(fields, m, r.value) <==> LosesNothing(fields, m))
  {
    EncodeMsgSome(fields, m);
    DefaultsAtDefaults(fields, was);
    MessageRoundTrip(fields, m, Defaults(fields, was));
    ArrivesMsgSame(fields, m, Decode(fields, EncodeMsg(fields, m).value, was).value);
  }

  lemma {:induction false} SafeValueLosesNothing(f: Field, v: Value)
    requires ValidField(f) && ElisionSafeField(f) && ConformsValue(f, v, true)
    ensures LosesNothingValue(f, v)
    decreases f, 0
  {
    if f.ltype.LSubmessage? { SafeLosesNothing(f.sub, v.slots); }
  }

  lemma {:induction false} SafeSlotLosesNothing(f: Field, s: Slot)
    requires ValidField(f) && ElisionSafeField(f) && ConformsSlot(f, s, true)
    ensures LosesNothingSlot(f, s)
    decreases f, 1
  {
    hide IsDefault, SameSlot, ElisionSafeField, ValidField, ConformsSpare;
    match s
    case Single(v) =>
      if f.htype.Optional? && IsDefault(f, s) {
        ZeroSlotTyped(f);
        ElisionSound(f, s, ZeroSlot(f));
      } else {
        SafeValueLosesNothing(f, v);
      }
    case Opt(_, v) => SafeValueLosesNothing(f, v);
    case Rep(items, _) =>
      forall k | 0 <= k < |items| ensures LosesNothingValue(f, items[k]) {
        SafeValueLosesNothing(f, items[k]);
      }
    case Union(which, v) => if which == f.tag { SafeValueLosesNothing(f, v); }
  }

  lemma {:induction false} SafeLosesNothing(fields: seq<Field>, m: seq<Slot>)
    requires ValidSchema(fields) && ElisionSafe(fields) && WellFormed(fields, m)
    ensures LosesNothing(fields, m)
    decreases fields
  {
    hide SlotIdx, LosesNothingSlot;
    forall i | 0 <= i < |fields|
      ensures SlotIdx(fields, i) < |m| && LosesNothingSlot(fields[i], m[SlotIdx(fields, i)])
    {
      assert ConformsSlot(fields[i], m[SlotIdx(fields, i)], true);
      SafeSlotLosesNothing(fields[i], m[SlotIdx(fields, i)]);
    }
  }

  /** The message round trip for every struct of a table whose proto3 defaults are zero. */
  lemma {:induction false} RoundTripSafe(fields: seq<Field>, m: seq<Slot>, was: seq<Slot>)
    requires ValidSchema(fields) && ElisionSafe(fields) && WellFormed(fields, m) && PayloadsFit(fields, m, UINT32)
    requires Typed(fields, was)
    ensures EncodeMsg(fields, m).Some?
    ensures var r := Decode(fields, EncodeMsg(fields, m).value, was);
            r.Good? && r.rest == [] && SameMsg(fields, m, r.value)
  {
    RoundTripExact(fields, m, was);
    SafeLosesNothing(fields, m);
  }

  /** A proto3 int32 field whose table gives it the default 7. */
  const SEVEN := Field(1, LVarint, Optional, 0, 0, 4, 0, [], Some(VInt(7)))

  /** With a nonzero default the round trip fails: 0 goes out as nothing and comes back as 7. */
  lemma {:induction false} NonzeroDefaultLost(was: Value)
    ensures ValidSchema([SEVEN]) && WellFormed([SEVEN], [Single(VInt(0))])
    ensures EncodeMsg([SEVEN], [Single(VInt(0))]) == Some([])
    ensures Decode([SEVEN], [], [Single(was)]) == Good([Single(VInt(7))], [])
  {
    assert ValidField(SEVEN);
    assert SlotIdx([SEVEN], 0) == 0 && NumSlots([SEVEN]) == 1;
    assert ConformsSlot(SEVEN, Single(VInt(0)), true);
    assert EncodeFrom([SEVEN], [Single(VInt(0))], 1) == Some([]);
    assert EncodeField(SEVEN, Single(VInt(0))) == Some([]);
    DefaultsAt([SEVEN], [Single(was)], 0);
    assert DefaultSlot(SEVEN, Single(was)) == Single(VInt(7));
    assert Defaults([SEVEN], [Single(was)]) == [Single(VInt(7))];
    assert RequiredBefore([SEVEN], 1) == 0;
  }
}
