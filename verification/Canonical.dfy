/** Encoding depends only on what a struct means, but for which-fields that name no member: exactly
    when two equal structs have the same encoding, and why encoding a decoded struct is a normal
    form. */
module Canonical {
  import opened Bytes
  import opened Schema
  import opened Varint
  import opened EncodeSpec
  import opened DecodeSpec
  import opened RoundTrip
  import opened Preservation
  import opened Proto3
  import opened WhichFields

  // ---------- what is left out ----------

  lemma {:induction false} EmptyFields(fields: seq<Field>, m: seq<Slot>, i: nat, j: nat)
    requires |m| == NumSlots(fields) && i <= j < |fields| && EncodeFrom(fields, m, i) == Some([])
    ensures SlotIdx(fields, j) < |m| && EncodeField(fields[j], m[SlotIdx(fields, j)]) == Some([])
    decreases j - i
  {
    hide EncodeField, SlotIdx, EncodeFrom;
    EncodeFromSplit(fields, m, i);
    if i < j { EmptyFields(fields, m, i + 1, j); }
  }

  /** Only a field that is left out is written as nothing; of a oneof also one that is not set to it. */
  lemma {:induction false} EmptyField(f: Field, s: Slot)
    requires ValidField(f) && ConformsSlot(f, s, false) && EncodeField(f, s) == Some([])
    ensures if f.htype.Oneof? then s.which != f.tag else IsDefault(f, s)
  {
    hide EncodeValue, EncTag, EncodePackedData, EncodeUnpacked, IsZeroData, ConformsValue, ConformsSpare, EncString;
    if IsFixedCount(f) { ArrayNonEmpty(f); }
    if f.htype.Repeated? && s.items != [] {
      assert !Packable(f.ltype) ==> EncodeUnpacked(f, s.items) != Some([]) by { UnpackedNonEmpty(f, s.items); }
      assert false;
    }
  }

  lemma {:induction false} ArrayNonEmpty(f: Field)
    requires ValidField(f) && IsFixedCount(f)
    ensures f.arraySize != 0
  {
  }

  lemma {:induction false} UnpackedNonEmpty(f: Field, items: seq<Value>)
    requires items != []
    ensures EncodeUnpacked(f, items) != Some([])
  {
    hide EncodeValue;
    var r := EncodeUnpacked(f, items);
    assert r == Append(EncodeTagged(f, items[0]), EncodeUnpacked(f, items[1..]));
  }

  /** A proto3 submessage whose which-fields are known is left out if and only if there is nothing to
      write for it. */
  lemma {:induction false} LeftOutIffEmpty(fields: seq<Field>, m: seq<Slot>)
    requires ValidSchema(fields) && Typed(fields, m) && Known(fields, m)
    ensures AllDefault(fields, m, 0) <==> EncodeMsg(fields, m) == Some([])
  {
    hide EncodeFrom, SlotIdx, IsDefault, AllDefault, EncodeField, ConformsSlot, KnownSlot, ValidField;
    if AllDefault(fields, m, 0) { AllDefaultEncodesEmpty(fields, m, 0); }
    if EncodeMsg(fields, m) == Some([]) {
      forall i | 0 <= i < |fields| ensures SlotIdx(fields, i) < |m| && IsDefault(fields[i], m[SlotIdx(fields, i)]) {
        var f, s := fields[i], m[SlotIdx(fields, i)];
        assert ValidField(f) && ConformsSlot(f, s, false) && KnownWhich(fields, SlotIdx(fields, i), s);
        EmptyFields(fields, m, 0, i);
        EmptyField(f, s);
        if f.htype.Oneof? { Unset(fields, m, i); }
      }
      AllDefaultFrom(fields, m, 0);
    }
  }

  lemma {:induction false} Unset(fields: seq<Field>, m: seq<Slot>, i: nat)
    requires ValidSchema(fields) && Typed(fields, m) && Known(fields, m) && i < |fields| && fields[i].htype.Oneof?
    requires |m| == NumSlots(fields) && EncodeFrom(fields, m, 0) == Some([])
    ensures SlotIdx(fields, i) < |m| && IsDefault(fields[i], m[SlotIdx(fields, i)])
  {
    hide EncodeFrom, SlotIdx, EncodeField, KnownSlot, ConformsValue;
    var n := SlotIdx(fields, i);
    assert ConformsSlot(fields[i], m[n], false) && KnownWhich(fields, n, m[n]);
    if m[n].which != 0 {
      var j :| 0 <= j < |fields| && SlotIdx(fields, j) == n && fields[j].tag == m[n].which;
      if j < i { SlotShared(fields, j, i); } else if i < j { SlotShared(fields, i, j); }
      assert ValidField(fields[j]) && ConformsSlot(fields[j], m[n], false);
      EmptyFields(fields, m, 0, j);
      EmptyField(fields[j], m[n]);
      assert false;
    }
  }

  // ---------- when equal structs have equal encodings ----------

  ghost predicate AgreeValue(f: Field, a: Value, b: Value)
    decreases f, 0
  {
    f.ltype.LSubmessage? && a.VMsg? && b.VMsg? ==> Agree(f.sub, a.slots, b.slots)
  }

  ghost predicate AgreeSlot(f: Field, s: Slot, t: Slot)
    decreases f, 1
  {
    match (s, t)
    case (Single(v), Single(w)) =>
      if f.htype.Optional? && f.ltype.LSubmessage?
      then IsDefault(f, s) == IsDefault(f, t) && (!IsDefault(f, s) ==> AgreeValue(f, v, w))
      else AgreeValue(f, v, w)
    case (Opt(has, v), Opt(has', w)) => has && has' ==> AgreeValue(f, v, w)
    case (Rep(items, _), Rep(items', _)) =>
      forall k :: 0 <= k < |items| && k < |items'| ==> AgreeValue(f, items[k], items'[k])
    case (Union(which, v), Union(which', w)) => which == which' == f.tag ==> AgreeValue(f, v, w)
    case _ => true
  }

  /** At every level that is written the proto3 submessages are left out of both structs or of
      neither. */
  ghost predicate Agree(fields: seq<Field>, a: seq<Slot>, b: seq<Slot>)
    decreases fields
  {
    forall i :: 0 <= i < |fields| && SlotIdx(fields, i) < |a| && SlotIdx(fields, i) < |b| ==>
      AgreeSlot(fields[i], a[SlotIdx(fields, i)], b[SlotIdx(fields, i)])
  }

  lemma {:induction false} ValueEncodesSame(f: Field, a: Value, b: Value)
    requires SameValue(f, a, b) && AgreeValue(f, a, b)
    ensures EncodeTagged(f, a) == EncodeTagged(f, b)
    decreases f, 0
  {
    hide EncodeMsg, EncTag, EncodeScalar;
    if f.ltype.LSubmessage? {
      AgreeEncodes(f.sub, a.slots, b.slots);
      assert EncodeDelimited(f.sub, a.slots) == EncodeDelimited(f.sub, b.slots);
    } else {
      ScalarsAlike(f, a, b);
    }
    assert EncodeValue(f, a) == EncodeValue(f, b);
  }

  lemma {:induction false} UnpackedEncodesSame(f: Field, a: seq<Value>, b: seq<Value>)
    requires |a| == |b| && forall k :: 0 <= k < |a| ==> SameValue(f, a[k], b[k]) && AgreeValue(f, a[k], b[k])
    ensures EncodeUnpacked(f, a) == EncodeUnpacked(f, b)
    decreases f, 1, a
  {
    hide EncodeTagged, SameValue, AgreeValue;
    if a != [] {
      ValueEncodesSame(f, a[0], b[0]);
      UnpackedEncodesSame(f, a[1..], b[1..]);
    }
  }

  /** Equal scalars are both left out or both written. */
  lemma {:induction false} ScalarsAlike(f: Field, a: Value, b: Value)
    requires !f.ltype.LSubmessage? && SameValue(f, a, b)
    ensures IsZeroData(f, a) == IsZeroData(f, b)
    ensures EncodeScalar(f, a) == EncodeScalar(f, b)
  {
  }

  lemma {:induction false} SlotEncodesSame(f: Field, s: Slot, t: Slot)
    requires SameSlot(f, s, t) && AgreeSlot(f, s, t)
    ensures EncodeField(f, s) == EncodeField(f, t)
    decreases f, 2
  {
    hide EncodeTagged, EncodePacked, EncodeUnpacked, AgreeValue, IsZeroData, SameValue;
    match s
    case Single(v) =>
      if !f.ltype.LSubmessage? { ScalarsAlike(f, v, t.v); }
      if !IsDefault(f, s) { ValueEncodesSame(f, v, t.v); }
    case Opt(has, v) => if has { ValueEncodesSame(f, v, t.ov); }
    case Rep(items, _) =>
      if Packable(f.ltype) { SameItems(f, items, t.items); } else { UnpackedEncodesSame(f, items, t.items); }
    case Union(which, v) => if which == f.tag { ValueEncodesSame(f, v, t.member); }
  }

  lemma {:induction false} SameItems(f: Field, a: seq<Value>, b: seq<Value>)
    requires Packable(f.ltype) && |a| == |b| && forall k :: 0 <= k < |a| ==> SameValue(f, a[k], b[k])
    ensures a == b
  {
  }

  lemma {:induction false} FromEncodesSame(fields: seq<Field>, a: seq<Slot>, b: seq<Slot>, i: nat)
    requires SameMsg(fields, a, b) && Agree(fields, a, b) && i <= |fields|
    ensures EncodeFrom(fields, a, i) == EncodeFrom(fields, b, i)
    decreases fields, 0, |fields| - i
  {
    hide EncodeField, SlotIdx, SameSlot, AgreeSlot;
    if i < |fields| {
      SlotEncodesSame(fields[i], a[SlotIdx(fields, i)], b[SlotIdx(fields, i)]);
      FromEncodesSame(fields, a, b, i + 1);
    }
  }

  lemma {:induction false} AgreeEncodes(fields: seq<Field>, a: seq<Slot>, b: seq<Slot>)
    requires SameMsg(fields, a, b) && Agree(fields, a, b)
    ensures EncodeMsg(fields, a) == EncodeMsg(fields, b)
    decreases fields, 1
  {
    FromEncodesSame(fields, a, b, 0);
  }

  // ---------- and only then ----------

  lemma {:induction false} Cancel(p: seq<byte>, x: seq<byte>, y: seq<byte>)
    requires p + x == p + y
    ensures x == y
  {
    assert (p + x)[|p|..] == x && (p + y)[|p|..] == y;
  }

  /** What is written from field `i` on starts with the key of one of those fields. */
  lemma {:induction false} FirstKey(fields: seq<Field>, m: seq<Slot>, i: nat)
      returns (j: nat, wire: nat, rest: seq<byte>)
    requires |m| == NumSlots(fields) && i <= |fields|
    requires EncodeFrom(fields, m, i).Some? && EncodeFrom(fields, m, i).value != []
    ensures i <= j < |fields| && wire < 8 && EncodeFrom(fields, m, i).value == EncTag(fields[j].tag, wire) + rest
    decreases |fields| - i
  {
    hide EncodeField, SlotIdx, EncTag, EncodeFrom;
    EncodeFromSplit(fields, m, i);
    var s := m[SlotIdx(fields, i)];
    var e, more := EncodeField(fields[i], s).value, EncodeFrom(fields, m, i + 1).value;
    if e == [] {
      assert e + more == more;
      j, wire, rest := FirstKey(fields, m, i + 1);
    } else {
      var r;
      wire, r := FieldKey(fields[i], s);
      j, rest := i, r + more;
      assert EncTag(fields[i].tag, wire) + r + more == EncTag(fields[i].tag, wire) + (r + more);
    }
  }

  lemma {:induction false} FieldKey(f: Field, s: Slot) returns (wire: nat, rest: seq<byte>)
    requires EncodeField(f, s).Some? && EncodeField(f, s).value != []
    ensures wire < 8 && EncodeField(f, s).value == EncTag(f.tag, wire) + rest
  {
    hide EncTag, EncodeValue, EncodePackedData, IsDefault, EncString;
    wire := if f.htype.Repeated? && Packable(f.ltype) then 2 else WireType(f.ltype);
    match s
    case Single(v) => rest := EncodeValue(f, v).value;
    case Opt(_, v) => rest := EncodeValue(f, v).value;
    case Union(_, v) => rest := EncodeValue(f, v).value;
    case Rep(items, _) =>
      if Packable(f.ltype) {
        rest := EncString(EncodePackedData(f, items).value);
      } else {
        assert EncodeUnpacked(f, items) == Append(EncodeTagged(f, items[0]), EncodeUnpacked(f, items[1..]));
        rest := EncodeValue(f, items[0]).value + EncodeUnpacked(f, items[1..]).value;
        assert EncodeUnpacked(f, items).value == EncTag(f.tag, wire) + rest;
      }
  }

  /** Keys with different field numbers are different. */
  lemma {:induction false} KeysApart(tag: nat, wire: nat, p: seq<byte>, tag': nat, wire': nat, q: seq<byte>)
    requires tag < MAX_TAG && tag' < MAX_TAG && wire < 8 && wire' < 8
    requires EncTag(tag, wire) + p == EncTag(tag', wire') + q
    ensures tag == tag'
  {
    hide EncVarint, DecVarint32;
    Varint32RoundTrip(8 * tag + wire, p);
    Varint32RoundTrip(8 * tag' + wire', q);
  }

  lemma {:induction false} TaggedCancels(f: Field, a: Value, b: Value, x: seq<byte>, y: seq<byte>)
    requires ValidField(f) && SameValue(f, a, b) && EncodeTagged(f, a).Some? && EncodeTagged(f, b).Some?
    requires PayloadFits(f, a, UINT32) && PayloadFits(f, b, UINT32)
    requires EncodeTagged(f, a).value + x == EncodeTagged(f, b).value + y
    ensures x == y && AgreeValue(f, a, b)
    decreases f, 1
  {
    hide EncTag, EncodeScalar, EncodeMsg, SameMsg, PayloadsFit, EncVarint, TakeDelimited;
    var key := EncTag(f.tag, WireType(f.ltype));
    if f.ltype.LSubmessage? {
      assert EncodeDelimited(f.sub, a.slots).Some? && EncodeDelimited(f.sub, b.slots).Some?;
      var p, q := EncodeMsg(f.sub, a.slots).value, EncodeMsg(f.sub, b.slots).value;
      assert EncodeTagged(f, a).value == key + EncString(p) && EncodeTagged(f, b).value == key + EncString(q);
      assert key + EncString(p) + x == key + (EncString(p) + x) && key + EncString(q) + y == key + (EncString(q) + y);
      Cancel(key, EncString(p) + x, EncString(q) + y);
      TakeDelimitedRoundTrip(p, x);
      TakeDelimitedRoundTrip(q, y);
      OnlyAgree(f.sub, a.slots, b.slots);
    } else {
      ScalarsAlike(f, a, b);
      Cancel(EncodeTagged(f, a).value, x, y);
    }
  }

  lemma {:induction false} UnpackedCancels(f: Field, a: seq<Value>, b: seq<Value>, x: seq<byte>, y: seq<byte>)
    requires ValidField(f) && EncodeUnpacked(f, a).Some? && EncodeUnpacked(f, b).Some?
    requires |a| == |b| && forall k :: 0 <= k < |a| ==>
               SameValue(f, a[k], b[k]) && PayloadFits(f, a[k], UINT32) && PayloadFits(f, b[k], UINT32)
    requires EncodeUnpacked(f, a).value + x == EncodeUnpacked(f, b).value + y
    ensures x == y && forall k :: 0 <= k < |a| ==> AgreeValue(f, a[k], b[k])
    decreases f, 2, a
  {
    hide EncodeTagged, SameValue, AgreeValue, PayloadFits, ValidField;
    if a == [] {
      assert [] + x == x && [] + y == y;
    } else {
      var e, e' := EncodeTagged(f, a[0]).value, EncodeTagged(f, b[0]).value;
      var more, more' := EncodeUnpacked(f, a[1..]).value + x, EncodeUnpacked(f, b[1..]).value + y;
      assert EncodeUnpacked(f, a).value + x == e + more && EncodeUnpacked(f, b).value + y == e' + more';
      TaggedCancels(f, a[0], b[0], more, more');
      UnpackedCancels(f, a[1..], b[1..], x, y);
      forall k | 0 <= k < |a| ensures AgreeValue(f, a[k], b[k]) {
        if k > 0 { assert a[k] == a[1..][k - 1] && b[k] == b[1..][k - 1]; }
      }
    }
  }

  /** Both slots are written, or neither is. */
  ghost predicate BothWritten(f: Field, s: Slot, t: Slot) {
    f.htype.Optional? && !HasSizeField(f) ==> IsDefault(f, s) == IsDefault(f, t)
  }

  lemma {:induction false} SlotCancels(f: Field, s: Slot, t: Slot, x: seq<byte>, y: seq<byte>)
    requires ValidField(f) && SameSlot(f, s, t) && BothWritten(f, s, t)
    requires EncodeField(f, s).Some? && EncodeField(f, t).Some?
    requires SlotPayloadsFit(f, s, UINT32) && SlotPayloadsFit(f, t, UINT32)
    requires EncodeField(f, s).value + x == EncodeField(f, t).value + y
    ensures x == y && AgreeSlot(f, s, t)
    decreases f, 3
  {
    hide EncodeTagged, EncodePacked, EncodeUnpacked, AgreeValue, IsDefault, SameValue, PayloadFits, ValidField;
    hide EncodePackedData;
    if EncodeField(f, s).value == EncodeField(f, t).value { Cancel(EncodeField(f, s).value, x, y); }
    if !f.ltype.LSubmessage? { ScalarsAgree(f); }
    match s
    case Single(v) => if !(f.htype.Optional? && IsDefault(f, s)) { TaggedCancels(f, v, t.v, x, y); }
    case Opt(has, v) => if has { TaggedCancels(f, v, t.ov, x, y); }
    case Rep(items, _) =>
      if Packable(f.ltype) {
        SameItems(f, items, t.items);
      } else if items != [] {
        UnpackedCancels(f, items, t.items, x, y);
      }
    case Union(which, v) => if which == f.tag { TaggedCancels(f, v, t.member, x, y); }
  }

  lemma {:induction false} ScalarsAgree(f: Field)
    requires !f.ltype.LSubmessage?
    ensures forall a, b :: AgreeValue(f, a, b)
  {
  }

  /** If a proto3 submessage is written on one side only, the other side goes on with another key. */
  lemma {:induction false} OneWritten(fields: seq<Field>, a: seq<Slot>, b: seq<Slot>, i: nat)
    requires ValidSchema(fields) && |a| == |b| == NumSlots(fields) && i < |fields|
    requires EncodeFrom(fields, a, i).Some? && EncodeFrom(fields, b, i).Some?
    requires EncodeFrom(fields, a, i).value == EncodeFrom(fields, b, i).value
    requires SlotIdx(fields, i) < |a| && EncodeField(fields[i], a[SlotIdx(fields, i)]) == Some([])
    ensures EncodeField(fields[i], b[SlotIdx(fields, i)]) == Some([])
  {
    hide EncodeField, SlotIdx, EncTag, EncodeFrom;
    EncodeFromSplit(fields, a, i);
    EncodeFromSplit(fields, b, i);
    var e, more := EncodeField(fields[i], b[SlotIdx(fields, i)]).value, EncodeFrom(fields, b, i + 1).value;
    var others := EncodeFrom(fields, a, i + 1).value;
    assert [] + others == others;
    if e != [] {
      var wire, p := FieldKey(fields[i], b[SlotIdx(fields, i)]);
      var j, wire', q := FirstKey(fields, a, i + 1);
      assert EncTag(fields[i].tag, wire) + p + more == EncTag(fields[i].tag, wire) + (p + more);
      assert ValidField(fields[i]) && ValidField(fields[j]);
      KeysApart(fields[i].tag, wire, p + more, fields[j].tag, wire', q);
      DifferentTags(fields, i, j);
      assert false;
    }
  }

  lemma {:induction false} FromAgree(fields: seq<Field>, a: seq<Slot>, b: seq<Slot>, i: nat)
    requires ValidSchema(fields) && SameMsg(fields, a, b) && i <= |fields|
    requires PayloadsFit(fields, a, UINT32) && PayloadsFit(fields, b, UINT32)
    requires EncodeFrom(fields, a, i).Some? && EncodeFrom(fields, a, i) == EncodeFrom(fields, b, i)
    ensures forall j :: i <= j < |fields| ==>
              SlotIdx(fields, j) < |a| && AgreeSlot(fields[j], a[SlotIdx(fields, j)], b[SlotIdx(fields, j)])
    decreases fields, 0, |fields| - i
  {
    hide EncodeField, SlotIdx, EncodeFrom, SameSlot, AgreeSlot, IsDefault, SlotPayloadsFit, ValidField;
    if i < |fields| {
      var n := SlotIdx(fields, i);
      EncodeFromSplit(fields, a, i);
      EncodeFromSplit(fields, b, i);
      assert ValidField(fields[i]) && SameSlot(fields[i], a[n], b[n]);
      if EncodeField(fields[i], a[n]) == Some([]) { OneWritten(fields, a, b, i); }
      if EncodeField(fields[i], b[n]) == Some([]) { OneWritten(fields, b, a, i); }
      WrittenIffShown(fields[i], a[n], b[n]);
      SlotCancels(fields[i], a[n], b[n], EncodeFrom(fields, a, i + 1).value, EncodeFrom(fields, b, i + 1).value);
      FromAgree(fields, a, b, i + 1);
    }
  }

  /** Nothing is written for a proto3 field if and only if it is left out as default. */
  lemma {:induction false} WrittenIffShown(f: Field, s: Slot, t: Slot)
    requires SameSlot(f, s, t) && EncodeField(f, s).Some? && EncodeField(f, t).Some?
    requires EncodeField(f, s) == Some([]) <==> EncodeField(f, t) == Some([])
    ensures BothWritten(f, s, t)
  {
    hide IsDefault, EncodeValue, SameValue;
  }

  lemma {:induction false} OnlyAgree(fields: seq<Field>, a: seq<Slot>, b: seq<Slot>)
    requires ValidSchema(fields) && SameMsg(fields, a, b)
    requires PayloadsFit(fields, a, UINT32) && PayloadsFit(fields, b, UINT32)
    requires EncodeMsg(fields, a).Some? && EncodeMsg(fields, a) == EncodeMsg(fields, b)
    ensures Agree(fields, a, b)
    decreases fields, 1
  {
    hide SlotIdx, AgreeSlot, SameSlot, SlotPayloadsFit;
    FromAgree(fields, a, b, 0);
  }

  /** Two well-formed structs with the same meaning have the same encoding, byte for byte, if and
      only if at every level that is written their proto3 submessages are left out of both or of
      neither. */
  lemma {:induction false} SameEncodingExact(fields: seq<Field>, a: seq<Slot>, b: seq<Slot>)
    requires ValidSchema(fields) && WellFormed(fields, a) && WellFormed(fields, b) && SameMsg(fields, a, b)
    requires PayloadsFit(fields, a, UINT32) && PayloadsFit(fields, b, UINT32)
    ensures EncodeMsg(fields, a) == EncodeMsg(fields, b) <==> Agree(fields, a, b)
  {
    hide EncodeMsg, SameMsg, PayloadsFit, Agree, ConformsMsg, ValidSchema;
    EncodeMsgSome(fields, a);
    if Agree(fields, a, b) { AgreeEncodes(fields, a, b); }
    if EncodeMsg(fields, a) == EncodeMsg(fields, b) { OnlyAgree(fields, a, b); }
  }

  // ---------- known which-fields agree ----------

  lemma {:induction false} ValuesAgree(f: Field, a: Value, b: Value)
    requires ValidField(f) && SameValue(f, a, b) && KnownValue(f, a) && KnownValue(f, b)
    ensures AgreeValue(f, a, b) && IsZeroData(f, a) == IsZeroData(f, b)
    decreases f, 0
  {
    if f.ltype.LSubmessage? { KnownFrom(f.sub, a.slots, b.slots, 0); } else { ScalarsAlike(f, a, b); }
  }

  lemma {:induction false} SlotsAgree(f: Field, s: Slot, t: Slot)
    requires ValidField(f) && SameSlot(f, s, t) && KnownSlot(f, s) && KnownSlot(f, t)
    requires f.htype.Oneof? ==> (s.which == 0 <==> t.which == 0)
    ensures AgreeSlot(f, s, t) && IsDefault(f, s) == IsDefault(f, t)
    decreases f, 2
  {
    hide KnownValue, KnownSpare, ValidField, IsZeroData, AgreeValue, SameValue;
    match s
    case Single(v) => ValuesAgree(f, v, t.v);
    case Opt(has, v) => if has { ValuesAgree(f, v, t.ov); }
    case Rep(items, _) =>
      forall k | 0 <= k < |items| ensures AgreeValue(f, items[k], t.items[k]) { ValuesAgree(f, items[k], t.items[k]); }
    case Union(which, v) => if which == f.tag { ValuesAgree(f, v, t.member); }
  }

  /** Equal oneofs agree on whether they are set at all. */
  lemma {:induction false} SetAlike(fields: seq<Field>, a: seq<Slot>, b: seq<Slot>, i: nat)
    requires ValidSchema(fields) && SameMsg(fields, a, b) && Known(fields, a) && i < |fields| && fields[i].htype.Oneof?
    ensures var n := SlotIdx(fields, i);
            n < |a| && a[n].Union? && b[n].Union? && (a[n].which != 0 ==> b[n].which != 0)
  {
    hide KnownSlot, SameValue, SlotIdx;
    var n := SlotIdx(fields, i);
    assert SameSlot(fields[i], a[n], b[n]) && KnownWhich(fields, n, a[n]);
    if a[n].which != 0 {
      var j :| 0 <= j < |fields| && SlotIdx(fields, j) == n && fields[j].tag == a[n].which;
      assert SameSlot(fields[j], a[n], b[n]) && ValidField(fields[j]);
      if j < i { SlotShared(fields, j, i); } else if i < j { SlotShared(fields, i, j); }
    }
  }

  lemma {:induction false} KnownFrom(fields: seq<Field>, a: seq<Slot>, b: seq<Slot>, i: nat)
    requires ValidSchema(fields) && SameMsg(fields, a, b) && Known(fields, a) && Known(fields, b) && i <= |fields|
    ensures forall j :: i <= j < |fields| ==>
              SlotIdx(fields, j) < |a| && AgreeSlot(fields[j], a[SlotIdx(fields, j)], b[SlotIdx(fields, j)])
    ensures AllDefault(fields, a, i) == AllDefault(fields, b, i)
    decreases fields, 0, |fields| - i
  {
    hide IsDefault, SlotIdx, KnownWhich, KnownSlot, SameSlot, ValidField, AgreeSlot;
    if i < |fields| {
      var f, n := fields[i], SlotIdx(fields, i);
      if f.htype.Oneof? {
        SetAlike(fields, a, b, i);
        SameMsgSym(fields, a, b);
        SetAlike(fields, b, a, i);
      }
      SlotsAgree(f, a[n], b[n]);
      KnownFrom(fields, a, b, i + 1);
    }
  }

  /** Where every which-field is zero or names a member, encoding depends only on the meaning. */
  lemma {:induction false} MsgEncodesSame(fields: seq<Field>, a: seq<Slot>, b: seq<Slot>)
    requires ValidSchema(fields) && SameMsg(fields, a, b) && Known(fields, a) && Known(fields, b)
    ensures EncodeMsg(fields, a) == EncodeMsg(fields, b)
  {
    hide EncodeMsg, SameMsg, Known;
    KnownFrom(fields, a, b, 0);
    AgreeEncodes(fields, a, b);
  }

  // ---------- what arrives agrees with what was sent ----------

  lemma {:induction false} DefaultStays(f: Field, s: Slot, t: Slot)
    requires ElisionSafeField(f) && ConformsSlot(f, s, true) && IsDefault(f, s) && AtDefault(f, t)
    ensures IsDefault(f, t)
    decreases f, 1
  {
    if f.htype.Optional? && !HasSizeField(f) {
      if f.ltype.LSubmessage? {
        SubmessageAtDefault(f, t.v);
        AllDefaultStays(f.sub, s.v.slots, t.v.slots);
      } else {
        ZerosEmpty(f.dataSize);
        assert t.v == DefaultValue(f, t.v) && ZeroDefault(f);
        assert IsZeroData(f, s.v) && ConformsValue(f, s.v, true) && ConformsValue(f, t.v, false);
        assert IsZeroData(f, t.v);
      }
    }
  }

  lemma {:induction false} AllDefaultStays(fields: seq<Field>, a: seq<Slot>, b: seq<Slot>)
    requires ElisionSafe(fields) && AtDefaults(fields, b)
    requires WellFormed(fields, a) && AllDefault(fields, a, 0)
    ensures AllDefault(fields, b, 0)
    decreases fields
  {
    hide IsDefault, SlotIdx, Defaults, DefaultSlot, AllDefault, ConformsSlot;
    forall i | 0 <= i < |fields|
      ensures SlotIdx(fields, i) < |b| && IsDefault(fields[i], b[SlotIdx(fields, i)])
    {
      AllDefaultAt(fields, a, 0, i);
      DefaultsAt(fields, b, i);
      assert ConformsSlot(fields[i], a[SlotIdx(fields, i)], true);
      assert ConformsSlot(fields[i], b[SlotIdx(fields, i)], false);
      DefaultStays(fields[i], a[SlotIdx(fields, i)], b[SlotIdx(fields, i)]);
    }
    AllDefaultFrom(fields, b, 0);
  }

  lemma {:induction false} AllDefaultFrom(fields: seq<Field>, m: seq<Slot>, i: nat)
    requires |m| == NumSlots(fields) && i <= |fields|
    requires forall j :: i <= j < |fields| ==> SlotIdx(fields, j) < |m| && IsDefault(fields[j], m[SlotIdx(fields, j)])
    ensures AllDefault(fields, m, i)
    decreases |fields| - i
  {
    hide IsDefault, SlotIdx;
    if i < |fields| { AllDefaultFrom(fields, m, i + 1); }
  }

  lemma {:induction false} ArrivedValueAgrees(f: Field, a: Value, b: Value)
    requires ValidField(f) && ElisionSafeField(f) && KnownValue(f, a) && ConformsValue(f, a, true)
    requires ArrivesValue(f, a, b)
    ensures AgreeValue(f, a, b) && IsZeroData(f, a) == IsZeroData(f, b)
    decreases f, 0
  {
    if f.ltype.LSubmessage? { ArrivedFrom(f.sub, a.slots, b.slots, 0); } else { ScalarsAlike(f, a, b); }
  }

  lemma {:induction false} ArrivedSlotAgrees(f: Field, s: Slot, t: Slot)
    requires ValidField(f) && ElisionSafeField(f) && KnownSlot(f, s) && ConformsSlot(f, s, true)
    requires ArrivesSlot(f, s, t)
    requires f.htype.Oneof? ==> (s.which == 0 <==> t.which == 0)
    ensures AgreeSlot(f, s, t) && IsDefault(f, s) == IsDefault(f, t)
    decreases f, 2
  {
    hide KnownValue, KnownSpare, ValidField, IsZeroData, AgreeValue, ArrivesValue, ElisionSafeField, AtDefault;
    hide ConformsValue, ConformsSpare;
    match s
    case Single(v) =>
      if f.htype.Optional? && IsDefault(f, s) {
        DefaultStays(f, s, t);
        if !f.ltype.LSubmessage? { ScalarsAgree(f); }
      } else {
        ArrivedValueAgrees(f, v, t.v);
      }
    case Opt(has, v) => if has { ArrivedValueAgrees(f, v, t.ov); }
    case Rep(items, _) =>
      forall k | 0 <= k < |items| ensures AgreeValue(f, items[k], t.items[k]) {
        ArrivedValueAgrees(f, items[k], t.items[k]);
      }
    case Union(which, v) => if which == f.tag { ArrivedValueAgrees(f, v, t.member); }
  }

  /** A oneof that is set to a member arrives set. */
  lemma {:induction false} SetArrives(fields: seq<Field>, a: seq<Slot>, b: seq<Slot>, i: nat)
    requires ValidSchema(fields) && ArrivesMsg(fields, a, b) && Known(fields, a)
    requires i < |fields| && fields[i].htype.Oneof?
    ensures var n := SlotIdx(fields, i);
            n < |a| == |b| && a[n].Union? && b[n].Union? && (a[n].which == 0 <==> b[n].which == 0)
  {
    hide KnownSlot, ArrivesValue, SlotIdx;
    var n := SlotIdx(fields, i);
    assert ArrivesSlot(fields[i], a[n], b[n]) && KnownWhich(fields, n, a[n]);
    if a[n].which != 0 {
      var j :| 0 <= j < |fields| && SlotIdx(fields, j) == n && fields[j].tag == a[n].which;
      assert ArrivesSlot(fields[j], a[n], b[n]) && ValidField(fields[j]);
      if j < i { SlotShared(fields, j, i); } else if i < j { SlotShared(fields, i, j); }
    }
  }

  lemma {:induction false} ArrivedFrom(fields: seq<Field>, a: seq<Slot>, b: seq<Slot>, i: nat)
    requires ValidSchema(fields) && ElisionSafe(fields) && Known(fields, a) && WellFormed(fields, a)
    requires ArrivesMsg(fields, a, b) && i <= |fields|
    ensures forall j :: i <= j < |fields| ==>
              SlotIdx(fields, j) < |a| && AgreeSlot(fields[j], a[SlotIdx(fields, j)], b[SlotIdx(fields, j)])
    ensures AllDefault(fields, a, i) == AllDefault(fields, b, i)
    decreases fields, 0, |fields| - i
  {
    hide IsDefault, SlotIdx, KnownWhich, KnownSlot, ArrivesSlot, ValidField, AgreeSlot, ElisionSafeField, ConformsSlot;
    if i < |fields| {
      var f, n := fields[i], SlotIdx(fields, i);
      if f.htype.Oneof? { SetArrives(fields, a, b, i); }
      ArrivedSlotAgrees(f, a[n], b[n]);
      ArrivedFrom(fields, a, b, i + 1);
    }
  }

  // ---------- the normal form ----------

  /** Sending a struct and encoding what arrives gives the same bytes again, whatever the
      destination holds. */
  lemma {:induction false} ArrivedEncodesSame(fields: seq<Field>, m: seq<Slot>, was: seq<Slot>)
    requires ValidSchema(fields) && ElisionSafe(fields) && WellFormed(fields, m) && Known(fields, m)
    requires PayloadsFit(fields, m, UINT32) && Typed(fields, was)
    ensures EncodeMsg(fields, m).Some?
    ensures var again := Decode(fields, EncodeMsg(fields, m).value, was);
            again.Good? && SameMsg(fields, m, again.value) && EncodeMsg(fields, again.value) == EncodeMsg(fields, m)
  {
    hide EncodeMsg, DecodeNoInit, SameMsg, ConformsMsg, Known, ElisionSafe, Defaults, AtDefaults, PayloadsFit;
    hide ArrivesMsg;
    RoundTripSafe(fields, m, was);
    DefaultsAtDefaults(fields, was);
    MessageRoundTrip(fields, m, Defaults(fields, was));
    var again := Decode(fields, EncodeMsg(fields, m).value, was).value;
    ArrivedFrom(fields, m, again, 0);
    AgreeEncodes(fields, m, again);
  }

  /** Whatever bytes the decoder accepts, encoding what it made of them is a normal form: that
      decodes into any struct to one with the same meaning, and encoding this gives the same bytes
      again. The first destination must be in order once it is set to its defaults. */
  lemma {:induction false} NormalForm(fields: seq<Field>, s: seq<byte>, m: seq<Slot>, was: seq<Slot>)
    requires ValidSchema(fields) && ElisionSafe(fields) && Decode(fields, s, m).Good? && Typed(fields, was)
    requires WellFormed(fields, Defaults(fields, m)) && Known(fields, Defaults(fields, m))
    requires PayloadsFit(fields, Decode(fields, s, m).value, UINT32)
    ensures var r := Decode(fields, s, m).value;
            EncodeMsg(fields, r).Some?
            && var again := Decode(fields, EncodeMsg(fields, r).value, was);
               again.Good? && SameMsg(fields, r, again.value) && EncodeMsg(fields, again.value) == EncodeMsg(fields, r)
  {
    hide EncodeMsg, DecodeNoInit, SameMsg, ConformsMsg, Known, ElisionSafe, Defaults, PayloadsFit;
    DecodedEncodes(fields, s, m);
    NoInitKnown(fields, s, Defaults(fields, m));
    ArrivedEncodesSame(fields, Decode(fields, s, m).value, was);
  }

  /** A table with a oneof of one bool, and a proto3 message with that as its only field. */
  const CHOICE := Field(1, LBool, Oneof, 0, 8, 1, 0, [], None)
  const HOLDER := Field(1, LSubmessage, Optional, 0, 0, 16, 0, [CHOICE], None)

  lemma {:induction false} ChoiceEncodings()
    ensures ValidSchema([CHOICE]) && NumSlots([CHOICE]) == 1
    ensures WellFormed([CHOICE], [Union(0, VBool(false))]) && WellFormed([CHOICE], [Union(9, VBool(false))])
    ensures SameMsg([CHOICE], [Union(0, VBool(false))], [Union(9, VBool(false))])
    ensures AllDefault([CHOICE], [Union(0, VBool(false))], 0) && !AllDefault([CHOICE], [Union(9, VBool(false))], 0)
    ensures EncodeMsg([CHOICE], [Union(9, VBool(false))]) == Some([])
  {
    var a, b := [Union(0, VBool(false))], [Union(9, VBool(false))];
    assert ValidField(CHOICE) && SlotIdx([CHOICE], 0) == 0;
    assert SameSlot(CHOICE, a[0], b[0]) && ConformsSlot(CHOICE, a[0], true) && ConformsSlot(CHOICE, b[0], true);
    assert IsDefault(CHOICE, a[0]) && !IsDefault(CHOICE, b[0]);
    assert AllDefault([CHOICE], a, 1);
    assert EncodeField(CHOICE, b[0]) == Some([]) && EncodeFrom([CHOICE], b, 1) == Some([]);
    assert EncodeFrom([CHOICE], b, 0) == Some([]);
  }

  /** A oneof whose which-field is set to no member is omitted at top level like an empty one, but
      it makes a proto3 submessage present: two structs with the same meaning, two encodings. */
  lemma {:induction false} UnknownWhichShows()
    ensures var unset, odd := [Single(VMsg([Union(0, VBool(false))]))], [Single(VMsg([Union(9, VBool(false))]))];
            ValidSchema([HOLDER]) && WellFormed([HOLDER], unset) && WellFormed([HOLDER], odd)
            && SameMsg([HOLDER], unset, odd) && !Agree([HOLDER], unset, odd)
            && EncodeMsg([HOLDER], unset) == Some([]) && EncodeMsg([HOLDER], odd) == Some([10, 0])
  {
    hide AllDefault, ValidSchema, SameMsg, ConformsMsg;
    var u, o := [Single(VMsg([Union(0, VBool(false))]))], [Single(VMsg([Union(9, VBool(false))]))];
    ChoiceEncodings();
    HolderShape(u, o);
    assert IsDefault(HOLDER, u[0]) && !IsDefault(HOLDER, o[0]);
    assert !AgreeSlot(HOLDER, u[0], o[0]);
    assert EncVarint(10) == [10] && EncVarint(0) == [0];
    var key: seq<byte>, size: seq<byte> := [10], [0];
    assert size + [] == size && key + size == [10, 0] && [10, 0] + [] == key + size;
    assert EncodeDelimited([CHOICE], o[0].v.slots) == Some(size) && EncodeValue(HOLDER, o[0].v) == Some(size);
    assert EncodeTagged(HOLDER, o[0].v) == Some(key + size);
    assert EncodeField(HOLDER, u[0]) == Some([]) && EncodeField(HOLDER, o[0]) == Some([10, 0]);
    assert EncodeFrom([HOLDER], u, 1) == Some([]) && EncodeFrom([HOLDER], o, 1) == Some([]);
    assert EncodeFrom([HOLDER], u, 0) == Some([]) && EncodeFrom([HOLDER], o, 0) == Some([10, 0]);
  }

  lemma {:induction false} HolderShape(u: seq<Slot>, o: seq<Slot>)
    requires ValidSchema([CHOICE]) && |u| == |o| == 1
    requires u[0].Single? && o[0].Single? && u[0].v.VMsg? && o[0].v.VMsg?
    requires SameMsg([CHOICE], u[0].v.slots, o[0].v.slots)
    requires WellFormed([CHOICE], u[0].v.slots) && WellFormed([CHOICE], o[0].v.slots)
    ensures WellFormed([HOLDER], u) && WellFormed([HOLDER], o)
    ensures ValidSchema([HOLDER]) && SameMsg([HOLDER], u, o) && SlotIdx([HOLDER], 0) == 0 && NumSlots([HOLDER]) == 1
  {
    assert ValidField(HOLDER) && SlotIdx([HOLDER], 0) == 0;
    assert SameSlot(HOLDER, u[0], o[0]) && ConformsSlot(HOLDER, u[0], true) && ConformsSlot(HOLDER, o[0], true);
  }
}
