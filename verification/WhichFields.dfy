/** The which-fields of oneofs. The encoder does not check them; the decoder leaves every one of them
    zero or the tag of a member. */
module WhichFields {
  import opened Bytes
  import opened Schema
  import opened Varint
  import opened DecodeSpec
  import opened Preservation

  // ---------- structs whose oneofs are set to members of theirs ----------

  ghost predicate KnownValue(f: Field, v: Value)
    decreases f, 0
  {
    f.ltype.LSubmessage? ==> v.VMsg? && Known(f.sub, v.slots)
  }

  /** An element past the count, once it is set to its defaults. */
  ghost predicate KnownSpare(f: Field, v: Value)
    decreases f, 0
  {
    f.ltype.LSubmessage? ==> v.VMsg? && Known(f.sub, Defaults(f.sub, v.slots))
  }

  ghost predicate KnownSlot(f: Field, s: Slot)
    decreases f, 1
  {
    match f.htype
    case Required => s.Single? && KnownValue(f, s.v)
    case Optional =>
      if HasSizeField(f) then s.Opt? && KnownValue(f, s.ov) else s.Single? && KnownValue(f, s.v)
    case Repeated =>
      s.Rep?
      && (forall k :: 0 <= k < |s.items| ==> KnownValue(f, s.items[k]))
      && (forall k :: 0 <= k < |s.spare| ==> KnownSpare(f, s.spare[k]))
    case Oneof => s.Union? && (s.which == f.tag ==> KnownValue(f, s.member))
  }

  /** The which-field of slot `n` is zero or the tag of a member. */
  ghost predicate KnownWhich(fields: seq<Field>, n: nat, s: Slot) {
    s.Union? && s.which != 0 ==>
      exists j :: 0 <= j < |fields| && SlotIdx(fields, j) == n && fields[j].tag == s.which
  }

  /** Every which-field, also in submessages, is zero or the tag of a member. */
  ghost predicate Known(fields: seq<Field>, m: seq<Slot>)
    decreases fields
  {
    forall i :: 0 <= i < |fields| ==>
      SlotIdx(fields, i) < |m|
      && KnownSlot(fields[i], m[SlotIdx(fields, i)])
      && KnownWhich(fields, SlotIdx(fields, i), m[SlotIdx(fields, i)])
  }

  // ---------- setting defaults leaves them so ----------

  lemma {:induction false} ValueDefaultKnown(f: Field, v: Value)
    requires ValidField(f) && KnownValue(f, v)
    ensures KnownValue(f, DefaultValue(f, v)) && KnownSpare(f, v)
    decreases f, 0
  {
    if f.ltype.LSubmessage? { DefaultsKnown(f.sub, v.slots); }
  }

  lemma {:induction false} SlotDefaultKnown(f: Field, s: Slot)
    requires ValidField(f) && KnownSlot(f, s)
    ensures KnownSlot(f, DefaultSlot(f, s)) && (f.htype.Oneof? <==> DefaultSlot(f, s).Union?)
    decreases f, 1
  {
    hide KnownValue, KnownSpare, DefaultValue;
    match f.htype
    case Required => ValueDefaultKnown(f, s.v);
    case Optional => ValueDefaultKnown(f, Held(s));
    case Repeated =>
      forall k | 0 <= k < |s.items| ensures KnownSpare(f, s.items[k]) { ValueDefaultKnown(f, s.items[k]); }
    case Oneof => assert f.tag != 0;
  }

  lemma {:induction false} DefaultsKnown(fields: seq<Field>, m: seq<Slot>)
    requires ValidSchema(fields) && Known(fields, m)
    ensures Known(fields, Defaults(fields, m))
    decreases fields
  {
    hide KnownSlot, DefaultSlot, ValidField;
    forall i | 0 <= i < |fields|
      ensures SlotIdx(fields, i) < |Defaults(fields, m)|
      ensures KnownSlot(fields[i], Defaults(fields, m)[SlotIdx(fields, i)])
      ensures KnownWhich(fields, SlotIdx(fields, i), Defaults(fields, m)[SlotIdx(fields, i)])
    {
      DefaultsAt(fields, m, i);
      assert ValidField(fields[i]);
      SlotDefaultKnown(fields[i], m[SlotIdx(fields, i)]);
      if fields[i].htype.Oneof? { UnsetByDefault(fields[i], m[SlotIdx(fields, i)]); }
    }
  }

  lemma {:induction false} ZeroKnown(f: Field)
    requires ValidField(f)
    ensures KnownValue(f, ZeroValue(f)) && KnownSpare(f, ZeroValue(f)) && KnownSlot(f, ZeroSlot(f))
    decreases f, 0
  {
    if f.ltype.LSubmessage? {
      ZeroMsgKnown(f.sub);
      DefaultsKnown(f.sub, ZeroMsg(f.sub));
    }
  }

  lemma {:induction false} ZeroMsgKnown(fields: seq<Field>)
    requires ValidSchema(fields)
    ensures Known(fields, ZeroMsg(fields))
    decreases fields
  {
    hide KnownSlot, ValidField, ZeroMsg;
    forall i | 0 <= i < |fields|
      ensures SlotIdx(fields, i) < |ZeroMsg(fields)|
      ensures KnownSlot(fields[i], ZeroMsg(fields)[SlotIdx(fields, i)])
      ensures KnownWhich(fields, SlotIdx(fields, i), ZeroMsg(fields)[SlotIdx(fields, i)])
    {
      ZeroMsgAt(fields, i);
      assert ValidField(fields[i]);
      ZeroKnown(fields[i]);
    }
  }

  lemma {:induction false} MemberBaseKnown(f: Field)
    requires ValidField(f)
    ensures KnownValue(f, MemberBase(f))
  {
    ZeroKnown(f);
    if f.ltype.LSubmessage? {
      ZeroMsgKnown(f.sub);
      DefaultsKnown(f.sub, ZeroMsg(f.sub));
    }
  }

  // ---------- the decoder leaves them so ----------

  /** A destination that decoding may start from. */
  ghost predicate BaseKnown(f: Field, base: Value) {
    if f.htype.Repeated? then KnownSpare(f, base) else KnownValue(f, base)
  }

  lemma {:induction false} ValueKnown(f: Field, s: seq<byte>, base: Value)
    requires ValidField(f) && BaseKnown(f, base) && DecodeValue(f, s, base).Good?
    ensures KnownValue(f, DecodeValue(f, s, base).value)
    decreases |s|, 0
  {
    hide DecodeScalar, DecodeNoInit, TakeDelimited, Defaults;
    if f.ltype.LSubmessage? { NoInitKnown(f.sub, TakeDelimited(s).value, SubBase(f, base)); }
  }

  lemma {:induction false} ElementsKnownToo(f: Field, wire: nat, s: seq<byte>, count: nat, cells: seq<Value>)
    requires ValidField(f) && f.htype.Repeated? && DecodeElements(f, wire, s, count, cells).Good?
    requires forall k :: 0 <= k < |cells| ==> KnownSpare(f, cells[k])
    ensures forall k :: 0 <= k < |DecodeElements(f, wire, s, count, cells).value|
                        ==> KnownValue(f, DecodeElements(f, wire, s, count, cells).value[k])
    decreases |s|, 1
  {
    hide DecodeValue, DecodePackedData, TakeDelimited, KnownSpare;
    if !(wire == 2 && Packable(f.ltype)) { ValueKnown(f, s, cells[0]); }
  }

  lemma {:induction false} DeliveredKnown(f: Field, slot: Slot, fixedCount: nat, vs: seq<Value>)
    requires f.htype.Repeated? && KnownSlot(f, slot)
    requires |vs| <= |CellsFrom(f, slot, fixedCount)| && (HasSizeField(f) || fixedCount <= |slot.items|)
    requires forall k :: 0 <= k < |vs| ==> KnownValue(f, vs[k])
    ensures KnownSlot(f, Delivered(f, slot, fixedCount, vs))
  {
    hide KnownValue, KnownSpare;
  }

  lemma {:induction false} FieldKnown(f: Field, wire: nat, s: seq<byte>, slot: Slot, fixedCount: nat)
    requires ValidField(f) && KnownSlot(f, slot) && DecodeField(f, wire, s, slot, fixedCount).Good?
    ensures KnownSlot(f, DecodeField(f, wire, s, slot, fixedCount).value.0)
    ensures f.htype.Oneof? <==> DecodeField(f, wire, s, slot, fixedCount).value.0.Union?
    ensures f.htype.Oneof? ==> DecodeField(f, wire, s, slot, fixedCount).value.0.which == f.tag
    decreases |s|, 2
  {
    hide DecodeValue, DecodeElements, KnownValue, KnownSpare, MemberBase, ValidField, Delivered, CountOf;
    match f.htype
    case Required => ValueKnown(f, s, slot.v);
    case Optional => ValueKnown(f, s, if HasSizeField(f) then slot.ov else slot.v);
    case Repeated =>
      var count, cells := CountOf(f, slot, fixedCount), CellsFrom(f, slot, fixedCount);
      if !HasSizeField(f) {
        forall k | 0 <= k < |slot.items| ensures KnownSpare(f, slot.items[k]) { ValueDefaultKnown(f, slot.items[k]); }
      }
      ElementsKnownToo(f, wire, s, count, cells);
      DeliveredKnown(f, slot, fixedCount, DecodeElements(f, wire, s, count, cells).value);
    case Oneof =>
      MemberBaseKnown(f);
      ValueKnown(f, s, MemberBase(f));
  }

  lemma {:induction false} StoreKnown(fields: seq<Field>, m: seq<Slot>, i: nat, slot: Slot)
    requires ValidSchema(fields) && Known(fields, m) && i < |fields| && KnownSlot(fields[i], slot)
    requires fields[i].htype.Oneof? <==> slot.Union?
    requires slot.Union? ==> slot.which == fields[i].tag
    ensures SlotIdx(fields, i) < |m| && Known(fields, m[SlotIdx(fields, i) := slot])
  {
    hide KnownValue, SlotIdx, ValidField;
    var n := SlotIdx(fields, i);
    forall j | 0 <= j < |fields|
      ensures SlotIdx(fields, j) < |m| && KnownSlot(fields[j], m[n := slot][SlotIdx(fields, j)])
      ensures KnownWhich(fields, SlotIdx(fields, j), m[n := slot][SlotIdx(fields, j)])
    {
      if j != i && SlotIdx(fields, j) == n {
        if i < j { SlotShared(fields, i, j); } else { SlotShared(fields, j, i); }
        DifferentTags(fields, i, j);
      }
    }
  }

  lemma {:induction false} TurnKnown(fields: seq<Field>, s: seq<byte>, st: State)
    requires ValidSchema(fields) && StateFor(fields, st) && Known(fields, st.m)
    requires DecodeTurn(fields, s, st).Next?
    ensures Known(fields, DecodeTurn(fields, s, st).st.m)
    decreases |s|, 0
  {
    hide DecodeTurn, DecodeKnown, DecodeField, DecVarint32, FindField, KnownSlot, KnownWhich, SlotIdx, EnterField;
    TurnParts(fields, s, st);
    var key, s1 := DecVarint32(s).value, DecVarint32(s).rest;
    match FindField(fields, key / 8)
    case None =>
    case Some(i) =>
      KnownParts(fields, i, key % 8, s1, st);
      var slot, count := st.m[SlotIdx(fields, i)], EnterField(fields, i, st).value.fixedCount;
      FieldKnown(fields[i], key % 8, s1, slot, count);
      StoreKnown(fields, st.m, i, DecodeField(fields[i], key % 8, s1, slot, count).value.0);
  }

  lemma {:induction false} LoopKnown(fields: seq<Field>, s: seq<byte>, st: State)
    requires ValidSchema(fields) && StateFor(fields, st) && Known(fields, st.m)
    requires DecodeLoop(fields, s, st).LoopDone?
    ensures Known(fields, DecodeLoop(fields, s, st).st.m)
    decreases |s|, 1
  {
    hide DecodeTurn, Known, ValidSchema;
    if s != [] && DecodeTurn(fields, s, st).Next? {
      var n := DecodeTurn(fields, s, st);
      TurnKnown(fields, s, st);
      LoopKnown(fields, n.rest, n.st);
    }
  }

  /** Decoding any bytes keeps every which-field zero or the tag of a member. */
  lemma {:induction false} NoInitKnown(fields: seq<Field>, s: seq<byte>, m: seq<Slot>)
    requires ValidSchema(fields) && Known(fields, m) && DecodeNoInit(fields, s, m).Good?
    ensures Known(fields, DecodeNoInit(fields, s, m).value)
    decreases |s|, 2
  {
    hide DecodeLoop, Known, RequiredPresent;
    LoopKnown(fields, s, InitialState(m));
  }
}
