/** What `pb_encode` writes for a struct, as a function of the table and the struct.
    `None` stands for the errors that do not depend on the stream. */
module EncodeSpec {
  import opened Bytes
  import opened Schema
  import opened Varint

  function WireType(l: LType): (w: nat)
    ensures w == 0 || w == 1 || w == 2 || w == 5
  {
    match l
    case LBool => 0
    case LVarint => 0
    case LUVarint => 0
    case LSVarint => 0
    case LFixed32 => 5
    case LFixed64 => 1
    case _ => 2
  }

  /** `pb_encode_tag`. */
  function EncTag(tag: nat, wire: nat): (s: seq<byte>)
    ensures |s| >= 1
  {
    EncVarint(8 * tag + wire)
  }

  /** The bytes after the tag of a value that is not a submessage (`pb_enc_*`). */
  function EncodeScalar(f: Field, v: Value): Option<seq<byte>> {
    match f.ltype
    case LBool => if v.VBool? then Some(EncVarint(if v.b then 1 else 0)) else None
    case LVarint =>
      if v.VInt? && SignedFits(f.dataSize, v.i) then Some(EncVarint(ToUint64(v.i))) else None
    case LUVarint =>
      if v.VInt? && UnsignedFits(f.dataSize, v.i) then Some(EncVarint(v.i)) else None
    case LSVarint =>
      if v.VInt? && SignedFits(f.dataSize, v.i) then Some(EncVarint(Zigzag(v.i))) else None
    case LFixed32 => if v.VInt? && 0 <= v.i < UINT32 then Some(EncFixed(4, v.i)) else None
    case LFixed64 => if v.VInt? && 0 <= v.i < UINT64 then Some(EncFixed(8, v.i)) else None
    case LBytes =>
      if v.VBytes? && |v.content| + BYTES_OFFSET <= f.dataSize then Some(EncString(v.content)) else None
    case LString => if v.VString? then Some(EncString(CStr(v.chars))) else None
    case LFixedBytes => if v.VFixedBytes? then Some(EncString(v.data)) else None
    case LSubmessage => None
  }

  /** `pb_encode_string`: the length, then the bytes. */
  function EncString(s: seq<byte>): (r: seq<byte>)
    ensures |r| > |s|
  {
    EncVarint(|s|) + s
  }

  function Append(a: Option<seq<byte>>, b: Option<seq<byte>>): (r: Option<seq<byte>>)
    ensures r.Some? <==> a.Some? && b.Some?
    ensures r.Some? ==> r.value == a.value + b.value
  {
    if a.Some? && b.Some? then Some(a.value + b.value) else None
  }

  /** The field encoders `PB_ENCODERS`. */
  function EncodeValue(f: Field, v: Value): Option<seq<byte>>
    decreases f, 0
  {
    if f.ltype.LSubmessage? then
      if v.VMsg? then EncodeDelimited(f.sub, v.slots) else None
    else EncodeScalar(f, v)
  }

  /** `pb_encode_tag_for_field`, then the value. */
  function EncodeTagged(f: Field, v: Value): Option<seq<byte>>
    decreases f, 1
  {
    Append(Some(EncTag(f.tag, WireType(f.ltype))), EncodeValue(f, v))
  }

  function EncodePackedData(f: Field, items: seq<Value>): Option<seq<byte>> {
    if items == [] then Some([])
    else Append(EncodeScalar(f, items[0]), EncodePackedData(f, items[1..]))
  }

  function EncodeUnpacked(f: Field, items: seq<Value>): Option<seq<byte>>
    decreases f, 2, items
  {
    if items == [] then Some([])
    else Append(EncodeTagged(f, items[0]), EncodeUnpacked(f, items[1..]))
  }

  /** One packed run: tag with the string wire type, length, elements. */
  function EncodePacked(f: Field, items: seq<Value>): Option<seq<byte>> {
    match EncodePackedData(f, items)
    case None => None
    case Some(d) => Some(EncTag(f.tag, 2) + EncString(d))
  }

  /** `encode_array`: packable types are always packed. */
  function EncodeArray(f: Field, items: seq<Value>): Option<seq<byte>>
    decreases f, 3
  {
    if items == [] then Some([])
    else if |items| > f.arraySize then None
    else if Packable(f.ltype) then EncodePacked(f, items)
    else EncodeUnpacked(f, items)
  }

  /** `pb_check_proto3_default_value` on the data bytes of a singular field. */
  predicate IsZeroData(f: Field, v: Value)
    decreases f, 0
  {
    match v
    case VBool(b) => !b
    case VInt(i) => i == 0
    case VBytes(content) => content == []
    case VString(chars) => CStr(chars) == []
    case VFixedBytes(_) => f.dataSize == 0
    case VMsg(slots) => |slots| == NumSlots(f.sub) && AllDefault(f.sub, slots, 0)
  }

  /** `pb_check_proto3_default_value`. */
  predicate IsDefault(f: Field, s: Slot)
    decreases f, 1
  {
    match f.htype
    case Required => false
    case Repeated => HasSizeField(f) && s.Rep? && s.items == []
    case Oneof => s.Union? && s.which == 0
    case Optional =>
      if HasSizeField(f) then s.Opt? && !s.has
      else s.Single? && IsZeroData(f, s.v)
  }

  predicate AllDefault(fields: seq<Field>, m: seq<Slot>, i: nat)
    requires |m| == NumSlots(fields) && i <= |fields|
    decreases fields, 0, |fields| - i
  {
    if i == |fields| then true
    else
      SlotInRange(fields, i);
      IsDefault(fields[i], m[SlotIdx(fields, i)]) && AllDefault(fields, m, i + 1)
  }

  /** `encode_basic_field`. */
  function EncodeField(f: Field, s: Slot): Option<seq<byte>>
    decreases f, 4
  {
    match f.htype
    case Required => if s.Single? then EncodeTagged(f, s.v) else None
    case Optional =>
      if HasSizeField(f) then
        if !s.Opt? then None else if s.has then EncodeTagged(f, s.ov) else Some([])
      else
        if !s.Single? then None else if IsDefault(f, s) then Some([]) else EncodeTagged(f, s.v)
    case Repeated =>
      if s.Rep? && (HasSizeField(f) || |s.items| == f.arraySize) then EncodeArray(f, s.items) else None
    case Oneof =>
      if !s.Union? then None else if s.which == f.tag then EncodeTagged(f, s.member) else Some([])
  }

  /** `pb_encode` from field `i` of the table on. */
  function EncodeFrom(fields: seq<Field>, m: seq<Slot>, i: nat): Option<seq<byte>>
    requires |m| == NumSlots(fields) && i <= |fields|
    decreases fields, 0, |fields| - i
  {
    if i == |fields| then Some([])
    else
      SlotInRange(fields, i);
      Append(EncodeField(fields[i], m[SlotIdx(fields, i)]), EncodeFrom(fields, m, i + 1))
  }

  /** `pb_encode`. */
  function EncodeMsg(fields: seq<Field>, m: seq<Slot>): Option<seq<byte>>
    decreases fields, 1
  {
    if |m| == NumSlots(fields) then EncodeFrom(fields, m, 0) else None
  }

  /** `pb_encode_submessage` and `pb_encode_delimited`: the length, then the message. */
  function EncodeDelimited(fields: seq<Field>, m: seq<Slot>): Option<seq<byte>>
    decreases fields, 2
  {
    match EncodeMsg(fields, m)
    case None => None
    case Some(b) => Some(EncString(b))
  }

  // ---------- sizes of payloads ----------

  /** The size written in front of a submessage, and those in front of the payloads in it, are
      below `limit`. */
  ghost predicate PayloadFits(f: Field, v: Value, limit: nat)
    decreases f, 0
  {
    f.ltype.LSubmessage? ==>
      v.VMsg? && (EncodeMsg(f.sub, v.slots).Some? ==> |EncodeMsg(f.sub, v.slots).value| < limit)
      && PayloadsFit(f.sub, v.slots, limit)
  }

  ghost predicate SlotPayloadsFit(f: Field, s: Slot, limit: nat)
    decreases f, 1
  {
    match s
    case Single(v) => (f.htype.Optional? && IsDefault(f, s)) || PayloadFits(f, v, limit)
    case Opt(has, v) => has ==> PayloadFits(f, v, limit)
    case Rep(items, _) =>
      (forall k :: 0 <= k < |items| ==> PayloadFits(f, items[k], limit))
      && (items != [] && Packable(f.ltype) && EncodePackedData(f, items).Some? ==>
            |EncodePackedData(f, items).value| < limit)
    case Union(which, v) => which == f.tag ==> PayloadFits(f, v, limit)
  }

  /** Every submessage and every packed run that is written has a size below `limit`. The size of
      the struct itself is not limited. */
  ghost predicate PayloadsFit(fields: seq<Field>, m: seq<Slot>, limit: nat)
    decreases fields
  {
    forall i :: 0 <= i < |fields| && SlotIdx(fields, i) < |m| ==>
      SlotPayloadsFit(fields[i], m[SlotIdx(fields, i)], limit)
  }

  lemma {:induction false} ValueWithin(f: Field, v: Value, limit: nat)
    requires EncodeValue(f, v).Some? && |EncodeValue(f, v).value| <= limit
    ensures PayloadFits(f, v, limit)
    decreases f, 0
  {
    if f.ltype.LSubmessage? { PayloadsWithin(f.sub, v.slots, limit); }
  }

  lemma {:induction false} ItemsWithin(f: Field, items: seq<Value>, limit: nat)
    requires EncodeUnpacked(f, items).Some? && |EncodeUnpacked(f, items).value| <= limit
    ensures forall k :: 0 <= k < |items| ==> PayloadFits(f, items[k], limit)
    decreases f, 1, items
  {
    hide EncodeValue, PayloadFits;
    if items != [] {
      ValueWithin(f, items[0], limit);
      ItemsWithin(f, items[1..], limit);
      forall k | 0 <= k < |items| ensures PayloadFits(f, items[k], limit) {
        if k > 0 { assert items[k] == items[1..][k - 1]; }
      }
    }
  }

  lemma {:induction false} SlotWithin(f: Field, s: Slot, limit: nat)
    requires EncodeField(f, s).Some? && |EncodeField(f, s).value| <= limit
    ensures SlotPayloadsFit(f, s, limit)
    decreases f, 2
  {
    hide EncodeValue, EncodeUnpacked, EncodePackedData, IsDefault;
    match s
    case Single(v) => if !(f.htype.Optional? && IsDefault(f, s)) { ValueWithin(f, v, limit); }
    case Opt(has, v) => if has { ValueWithin(f, v, limit); }
    case Rep(items, _) =>
      if !Packable(f.ltype) && items != [] { ItemsWithin(f, items, limit); }
    case Union(which, v) => if which == f.tag { ValueWithin(f, v, limit); }
  }

  lemma {:induction false} FromWithin(fields: seq<Field>, m: seq<Slot>, i: nat, limit: nat)
    requires |m| == NumSlots(fields) && i <= |fields|
    requires EncodeFrom(fields, m, i).Some? && |EncodeFrom(fields, m, i).value| <= limit
    ensures forall j :: i <= j < |fields| && SlotIdx(fields, j) < |m| ==>
              SlotPayloadsFit(fields[j], m[SlotIdx(fields, j)], limit)
    decreases fields, 0, |fields| - i
  {
    hide EncodeField, SlotPayloadsFit, SlotIdx;
    if i < |fields| {
      SlotInRange(fields, i);
      SlotWithin(fields[i], m[SlotIdx(fields, i)], limit);
      FromWithin(fields, m, i + 1, limit);
    }
  }

  /** The payloads in an encoding are smaller than the encoding. */
  lemma {:induction false} PayloadsWithin(fields: seq<Field>, m: seq<Slot>, limit: nat)
    requires EncodeMsg(fields, m).Some? && |EncodeMsg(fields, m).value| <= limit
    ensures PayloadsFit(fields, m, limit)
    decreases fields, 1
  {
    FromWithin(fields, m, 0, limit);
  }

  // ---------- every well-formed struct has an encoding ----------

  lemma {:induction false} PackedDataSome(f: Field, items: seq<Value>)
    requires Packable(f.ltype)
    requires forall k :: 0 <= k < |items| ==> ConformsValue(f, items[k], false)
    ensures EncodePackedData(f, items).Some?
    decreases items
  {
    if items != [] {
      assert ConformsValue(f, items[0], false);
      PackedDataSome(f, items[1..]);
    }
  }

  lemma {:induction false} UnpackedSome(f: Field, items: seq<Value>)
    requires forall k :: 0 <= k < |items| ==> ConformsValue(f, items[k], true)
    ensures EncodeUnpacked(f, items).Some?
    decreases f, 2, items
  {
    if items != [] {
      EncodeValueSome(f, items[0]);
      UnpackedSome(f, items[1..]);
    }
  }

  lemma {:induction false} EncodeValueSome(f: Field, v: Value)
    requires ConformsValue(f, v, true)
    ensures EncodeValue(f, v).Some?
    decreases f, 0
  {
    if f.ltype.LSubmessage? { EncodeMsgSome(f.sub, v.slots); }
  }

  lemma {:induction false} EncodeFieldSome(f: Field, s: Slot)
    requires ConformsSlot(f, s, true)
    ensures EncodeField(f, s).Some?
    decreases f, 4
  {
    match f.htype
    case Required => EncodeValueSome(f, s.v);
    case Optional => EncodeValueSome(f, if HasSizeField(f) then s.ov else s.v);
    case Repeated =>
      if Packable(f.ltype) {
        forall k | 0 <= k < |s.items| ensures ConformsValue(f, s.items[k], false) {
          StrictValueConforms(f, s.items[k]);
        }
        PackedDataSome(f, s.items);
      } else {
        UnpackedSome(f, s.items);
      }
    case Oneof => if s.which == f.tag { EncodeValueSome(f, s.member); }
  }

  lemma {:induction false} EncodeFromSome(fields: seq<Field>, m: seq<Slot>, i: nat)
    requires WellFormed(fields, m) && i <= |fields|
    ensures EncodeFrom(fields, m, i).Some?
    decreases fields, 0, |fields| - i
  {
    if i < |fields| {
      SlotInRange(fields, i);
      EncodeFieldSome(fields[i], m[SlotIdx(fields, i)]);
      EncodeFromSome(fields, m, i + 1);
    }
  }

  /** `pb_encode` can fail on a well-formed struct only for lack of room. */
  lemma {:induction false} EncodeMsgSome(fields: seq<Field>, m: seq<Slot>)
    requires WellFormed(fields, m)
    ensures EncodeMsg(fields, m).Some?
    decreases fields, 1
  {
    EncodeFromSome(fields, m, 0);
  }
}
