/** The encoder of `pb_encode.c`, writing to a stream. Every method puts exactly the bytes of
    its specification in `EncodeSpec`, or fails; a submessage is encoded twice, first to learn
    its size and then into a substream of that size. */
module Encoder {
  import opened Bytes
  import opened Schema
  import opened Varint
  import opened EncodeSpec
  import opened DecodeSpec
  import opened Streams
  import opened WireWriter
  import opened FieldIter

  /** The sizes the encoder computes, that of the struct and those in front of the submessages in
      it, are below 2^64. */
  ghost predicate Sized(fields: seq<Field>, m: seq<Slot>) {
    (EncodeMsg(fields, m).Some? ==> |EncodeMsg(fields, m).value| < UINT64) && PayloadsFit(fields, m, UINT64)
  }

  // ---------- values ----------

  /** The integer types of a numeric field; an unknown `data_size` has none. */
  ghost predicate IntTyped(f: Field, v: Value) {
    v.VInt? && (IntBound(f.dataSize) == 0
                || if f.ltype.LUVarint? then UnsignedFits(f.dataSize, v.i) else SignedFits(f.dataSize, v.i))
  }

  /** `pb_enc_bool`. */
  method EncBool(stream: OStream, f: Field, v: Value) returns (st: Status)
    requires stream.Valid() && f.ltype.LBool? && v.VBool?
    modifies stream, stream.buf
    ensures stream.Puts(old(stream.Here()), st, EncodeScalar(f, v))
  {
    st := EncodeVarint(stream, if v.b then 1 else 0);
  }

  /** `pb_enc_varint`: sign-extended to 64 bits. */
  method EncVarintField(stream: OStream, f: Field, v: Value) returns (st: Status)
    requires stream.Valid() && f.ltype.LVarint? && IntTyped(f, v)
    modifies stream, stream.buf
    ensures stream.Puts(old(stream.Here()), st, EncodeScalar(f, v))
  {
    if f.dataSize != 1 && f.dataSize != 2 && f.dataSize != 4 && f.dataSize != 8 { return Invalid; }
    st := EncodeVarint(stream, ToUint64(v.i));
  }

  /** `pb_enc_uvarint`. */
  method EncUVarintField(stream: OStream, f: Field, v: Value) returns (st: Status)
    requires stream.Valid() && f.ltype.LUVarint? && IntTyped(f, v)
    modifies stream, stream.buf
    ensures stream.Puts(old(stream.Here()), st, EncodeScalar(f, v))
  {
    if f.dataSize != 1 && f.dataSize != 2 && f.dataSize != 4 && f.dataSize != 8 { return Invalid; }
    st := EncodeVarint(stream, v.i);
  }

  /** `pb_enc_svarint`. */
  method EncSVarintField(stream: OStream, f: Field, v: Value) returns (st: Status)
    requires stream.Valid() && f.ltype.LSVarint? && IntTyped(f, v)
    modifies stream, stream.buf
    ensures stream.Puts(old(stream.Here()), st, EncodeScalar(f, v))
  {
    if f.dataSize != 1 && f.dataSize != 2 && f.dataSize != 4 && f.dataSize != 8 { return Invalid; }
    st := EncodeSVarint(stream, v.i);
  }

  /** `pb_enc_bytes`. */
  method EncBytes(stream: OStream, f: Field, v: Value) returns (st: Status)
    requires stream.Valid() && f.ltype.LBytes? && v.VBytes? && |v.content| <= PB_SIZE_MAX
    modifies stream, stream.buf
    ensures stream.Puts(old(stream.Here()), st, EncodeScalar(f, v))
  {
    if BYTES_OFFSET + |v.content| > f.dataSize { return Invalid; }
    st := EncodeString(stream, v.content);
  }

  lemma {:induction false} CStrEndsAt(s: seq<byte>, n: nat)
    requires n <= |s| && (forall k :: 0 <= k < n ==> s[k] != 0) && (n < |s| ==> s[n] == 0)
    ensures CStr(s) == s[..n]
  {
    var r := CStr(s);
    assert forall k :: 0 <= k < |r| ==> r[k] == s[k];
  }

  /** `pb_enc_string`: up to the NUL, or all of the array when there is none. */
  method EncStringField(stream: OStream, f: Field, v: Value) returns (st: Status)
    requires stream.Valid() && f.ltype.LString? && v.VString? && |v.chars| == f.dataSize <= PB_SIZE_MAX
    modifies stream, stream.buf
    ensures stream.Puts(old(stream.Here()), st, EncodeScalar(f, v))
  {
    var size := 0;
    while size < f.dataSize && v.chars[size] != 0
      invariant size <= |v.chars| && forall k :: 0 <= k < size ==> v.chars[k] != 0
    {
      size := size + 1;
    }
    CStrEndsAt(v.chars, size);
    st := EncodeString(stream, v.chars[..size]);
  }

  /** The field encoders `PB_ENCODERS`, but for submessages. */
  method EncScalar(stream: OStream, f: Field, v: Value) returns (st: Status)
    requires stream.Valid() && !f.ltype.LSubmessage? && ConformsValue(f, v, false) && f.dataSize <= PB_SIZE_MAX
    modifies stream, stream.buf
    ensures stream.Puts(old(stream.Here()), st, EncodeScalar(f, v))
  {
    match f.ltype {
      case LBool => st := EncBool(stream, f, v);
      case LVarint => st := EncVarintField(stream, f, v);
      case LUVarint => st := EncUVarintField(stream, f, v);
      case LSVarint => st := EncSVarintField(stream, f, v);
      case LFixed32 => st := EncodeFixed32(stream, v.i);
      case LFixed64 => st := EncodeFixed64(stream, v.i);
      case LBytes => st := EncBytes(stream, f, v);
      case LString => st := EncStringField(stream, f, v);
      case LFixedBytes => st := EncodeString(stream, v.data);
    }
  }

  /** The field encoders `PB_ENCODERS`. */
  method EncValue(stream: OStream, f: Field, v: Value) returns (st: Status)
    requires stream.Valid() && ValidField(f) && ConformsValue(f, v, false) && PayloadFits(f, v, UINT64)
    modifies stream, stream.buf
    ensures stream.Puts(old(stream.Here()), st, EncodeValue(f, v))
    decreases f, 0
  {
    hide EncodeScalar, EncodeMsg, EncodeSpec.EncodeDelimited;
    if f.ltype.LSubmessage? {
      st := EncodeSubmessage(stream, f.sub, v.slots);
    } else {
      st := EncScalar(stream, f, v);
    }
  }

  /** `pb_encode_submessage`. The error that the second pass writes another size than the first
      is never returned. */
  method EncodeSubmessage(stream: OStream, fields: seq<Field>, m: seq<Slot>) returns (st: Status)
    requires stream.Valid() && ValidSchema(fields) && Typed(fields, m) && Sized(fields, m)
    modifies stream, stream.buf
    ensures stream.Puts(old(stream.Here()), st, EncodeSpec.EncodeDelimited(fields, m))
    decreases fields, 2
  {
    hide EncodeMsg, ConformsMsg, EncVarint, SlotPayloadsFit, ValidSchema, Advance;
    ghost var from, b := stream.Here(), EncodeMsg(fields, m);
    var sizing := new OStream.SizingStream();
    st := EncodeMessage(sizing, fields, m);
    if st != Done { return; }
    var size := sizing.bytesWritten;
    st := EncodeVarint(stream, size);
    if st != Done { return; }
    if stream.Sizing() {
      stream.CountOnly(b.value, size);
      stream.Carry(from, EncVarint(size), Done, b);
      return Done;
    }
    if stream.bytesWritten + size > stream.maxSize { return StreamFull; }
    var substream := new OStream.Limited(stream, size);
    var status := EncodeMessage(substream, fields, m);
    ghost var mid := Advance(from, false, EncVarint(size));
    stream.bytesWritten := stream.bytesWritten + substream.bytesWritten;
    stream.state := substream.state;
    st := if substream.bytesWritten != size then SizeChanged else status;
    AdvanceSub(mid, b.value);
    stream.Carry(from, EncVarint(size), st, b);
  }

  /** A value after the tag of its field. */
  method EncTagged(stream: OStream, f: Field, v: Value) returns (st: Status)
    requires stream.Valid() && ValidField(f) && ConformsValue(f, v, false) && PayloadFits(f, v, UINT64)
    modifies stream, stream.buf
    ensures stream.Puts(old(stream.Here()), st, EncodeTagged(f, v))
    decreases f, 1
  {
    hide EncodeValue, EncTag, ConformsValue, PayloadFits;
    ghost var from := stream.Here();
    st := EncodeTagForField(stream, f);
    if st != Done { return; }
    st := EncValue(stream, f, v);
    stream.Carry(from, EncTag(f.tag, WireType(f.ltype)), st, EncodeValue(f, v));
  }

  // ---------- arrays ----------

  /** The pieces of a list of encodings, one after the other. */
  lemma {:induction false} AppendNext(done: seq<byte>, b: Option<seq<byte>>, rest: Option<seq<byte>>)
    ensures b.Some? ==> Append(Some(done), Append(b, rest)) == Append(Some(done + b.value), rest)
    ensures b.None? ==> Append(Some(done), Append(b, rest)) == None
    ensures Append(Some([]), rest) == rest && Append(Some(done), Some([])) == Some(done)
  {
    if rest.Some? {
      assert [] + rest.value == rest.value;
      if b.Some? { assert done + (b.value + rest.value) == done + b.value + rest.value; }
    }
    assert done + [] == done;
  }

  lemma {:induction false} PackedStep(f: Field, items: seq<Value>, k: nat)
    requires k < |items|
    ensures EncodePackedData(f, items[k..])
         == Append(EncodeScalar(f, items[k]), EncodePackedData(f, items[k + 1..]))
  {
    assert items[k..][1..] == items[k + 1..];
  }

  /** The size shortcut for fixed-width elements, and a bound for the others. */
  lemma {:induction false} PackedSize(f: Field, items: seq<Value>)
    requires Packable(f.ltype) && EncodePackedData(f, items).Some?
    ensures f.ltype.LFixed32? ==> |EncodePackedData(f, items).value| == 4 * |items|
    ensures f.ltype.LFixed64? ==> |EncodePackedData(f, items).value| == 8 * |items|
    ensures |EncodePackedData(f, items).value| <= 10 * |items|
    decreases items
  {
    if items != [] {
      PackedSize(f, items[1..]);
      var v := items[0];
      match f.ltype
      case LBool => EncVarintAtMost10(if v.b then 1 else 0);
      case LVarint => EncVarintAtMost10(ToUint64(v.i));
      case LUVarint => EncVarintAtMost10(v.i);
      case LSVarint => EncVarintAtMost10(Zigzag(v.i));
      case _ =>
    }
  }

  lemma {:induction false} EmptyArrays(f: Field, items: seq<Value>)
    requires items == []
    ensures EncodePackedData(f, items) == EncodeUnpacked(f, items) == Some([])
  {
  }

  /** The elements of an array one after the other, with no tags. */
  method EncPackedData(stream: OStream, f: Field, items: seq<Value>) returns (st: Status)
    requires stream.Valid() && ValidField(f) && Packable(f.ltype)
    requires forall k :: 0 <= k < |items| ==> ConformsValue(f, items[k], false)
    modifies stream, stream.buf
    ensures stream.Puts(old(stream.Here()), st, EncodePackedData(f, items))
  {
    hide EncodeScalar, ConformsValue, ValidField;
    ghost var from, done := stream.Here(), [];
    stream.Idle();
    assert items[0..] == items;
    AppendNext(done, None, EncodePackedData(f, items));
    for i := 0 to |items|
      invariant stream.Puts(from, Done, Some(done))
      invariant EncodePackedData(f, items) == Append(Some(done), EncodePackedData(f, items[i..]))
    {
      PackedStep(f, items, i);
      AppendNext(done, EncodeScalar(f, items[i]), EncodePackedData(f, items[i + 1..]));
      assert ConformsValue(f, items[i], false);
      assert f.dataSize <= PB_SIZE_MAX && !f.ltype.LSubmessage? by { SmallData(f); }
      st := EncScalar(stream, f, items[i]);
      stream.Carry(from, done, st, EncodeScalar(f, items[i]));
      if st != Done { return; }
      done := done + EncodeScalar(f, items[i]).value;
    }
    assert EncodePackedData(f, items[|items|..]) == Some([]) by { EmptyArrays(f, items[|items|..]); }
    AppendNext(done, None, None);
    return Done;
  }

  lemma {:induction false} SmallData(f: Field)
    requires ValidField(f)
    ensures f.dataSize <= PB_SIZE_MAX && f.arraySize <= PB_SIZE_MAX && f.tag < UINT32
  {
  }

  /** The total size of a packed array, in `encode_array`: fixed-width elements are not encoded
      to find it out. */
  method PackedDataSize(f: Field, items: seq<Value>) returns (size: nat)
    requires ValidField(f) && Packable(f.ltype)
    requires forall k :: 0 <= k < |items| ==> ConformsValue(f, items[k], false)
    ensures EncodePackedData(f, items).Some? && size == |EncodePackedData(f, items).value|
  {
    hide EncodePackedData, ConformsValue, ValidField;
    PackedDataSome(f, items);
    PackedSize(f, items);
    if f.ltype.LFixed32? {
      size := 4 * |items|;
    } else if f.ltype.LFixed64? {
      size := 8 * |items|;
    } else {
      var sizing := new OStream.SizingStream();
      var _ := EncPackedData(sizing, f, items);
      size := sizing.bytesWritten;
    }
  }

  /** `encode_array` for a packable type: the size first, then the elements. */
  method EncPacked(stream: OStream, f: Field, items: seq<Value>) returns (st: Status)
    requires stream.Valid() && ValidField(f) && Packable(f.ltype) && 0 < |items| <= f.arraySize
    requires forall k :: 0 <= k < |items| ==> ConformsValue(f, items[k], false)
    modifies stream, stream.buf
    ensures stream.Puts(old(stream.Here()), st, EncodePacked(f, items))
  {
    hide EncodePackedData, ConformsValue, EncVarint, ValidField, Advance;
    ghost var from, data := stream.Here(), EncodePackedData(f, items);
    ghost var tag := EncTag(f.tag, 2);
    assert f.arraySize <= PB_SIZE_MAX && f.tag < UINT32 by { SmallData(f); }
    st := EncodeTag(stream, 2, f.tag);
    if st != Done {
      PackedDataSome(f, items);
      return;
    }
    var size := PackedDataSize(f, items);
    PackedSize(f, items);
    st := EncodeVarint(stream, size);
    stream.Carry(from, tag, st, Some(EncVarint(size)));
    if st != Done { return; }
    if stream.Sizing() {
      stream.CountOnly(data.value, size);
      st := Done;
    } else {
      st := EncPackedData(stream, f, items);
    }
    stream.Carry(from, tag + EncVarint(size), st, data);
    assert tag + EncVarint(size) + data.value == tag + EncString(data.value);
  }

  lemma {:induction false} UnpackedStep(f: Field, items: seq<Value>, k: nat)
    requires k < |items|
    ensures EncodeUnpacked(f, items[k..])
         == Append(EncodeTagged(f, items[k]), EncodeUnpacked(f, items[k + 1..]))
  {
    assert items[k..][1..] == items[k + 1..];
  }

  /** `encode_array`. */
  method EncArray(stream: OStream, f: Field, items: seq<Value>) returns (st: Status)
    requires stream.Valid() && ValidField(f)
    requires forall k :: 0 <= k < |items| ==> ConformsValue(f, items[k], false) && PayloadFits(f, items[k], UINT64)
    modifies stream, stream.buf
    ensures stream.Puts(old(stream.Here()), st, EncodeArray(f, items))
    decreases f, 3
  {
    hide EncodePacked, EncodeUnpacked, EncodeTagged, ConformsValue, PayloadFits, ValidField;
    ghost var from, done := stream.Here(), [];
    stream.Idle();
    if |items| == 0 { return Done; }
    if |items| > f.arraySize { return Invalid; }
    if Packable(f.ltype) {
      st := EncPacked(stream, f, items);
      return;
    }
    assert items[0..] == items;
    AppendNext(done, None, EncodeUnpacked(f, items));
    for i := 0 to |items|
      invariant stream.Puts(from, Done, Some(done))
      invariant EncodeUnpacked(f, items) == Append(Some(done), EncodeUnpacked(f, items[i..]))
    {
      UnpackedStep(f, items, i);
      AppendNext(done, EncodeTagged(f, items[i]), EncodeUnpacked(f, items[i + 1..]));
      st := EncTagged(stream, f, items[i]);
      stream.Carry(from, done, st, EncodeTagged(f, items[i]));
      if st != Done { return; }
      done := done + EncodeTagged(f, items[i]).value;
    }
    assert EncodeUnpacked(f, items[|items|..]) == Some([]) by { EmptyArrays(f, items[|items|..]); }
    AppendNext(done, None, None);
    return Done;
  }

  // ---------- the default check ----------

  /** `pb_check_proto3_default_value`. */
  method CheckProto3Default(f: Field, s: Slot) returns (isDefault: bool)
    requires ValidField(f) && ConformsSlot(f, s, false)
    ensures isDefault == IsDefault(f, s)
    decreases f, 1
  {
    hide SlotIdx, AllDefault;
    match f.htype {
      case Required => return false;
      case Repeated => return HasSizeField(f) && s.items == [];
      case Oneof => return s.which == 0;
      case Optional => if HasSizeField(f) { return !s.has; }
    }
    match s.v {
      case VBool(b) => return !b;
      case VInt(i) => return i == 0;
      case VBytes(content) => return content == [];
      case VString(chars) => return chars[0] == 0;
      case VFixedBytes(_) => return f.dataSize == 0;
      case VMsg(slots) => isDefault := CheckAllDefault(f.sub, slots);
    }
  }

  lemma {:induction false} AllDefaultStep(fields: seq<Field>, m: seq<Slot>, i: nat)
    requires |m| == NumSlots(fields) && i < |fields|
    ensures SlotIdx(fields, i) < |m|
    ensures AllDefault(fields, m, i) == (IsDefault(fields[i], m[SlotIdx(fields, i)]) && AllDefault(fields, m, i + 1))
    ensures AllDefault(fields, m, |fields|)
  {
    SlotInRange(fields, i);
  }

  lemma {:induction false} EmptyTable(m: seq<Slot>)
    requires |m| == 0
    ensures AllDefault([], m, 0) && EncodeMsg([], m) == Some([])
  {
  }

  /** The loop over the fields of a submessage in `pb_check_proto3_default_value`. */
  method CheckAllDefault(fields: seq<Field>, m: seq<Slot>) returns (isDefault: bool)
    requires ValidSchema(fields) && Typed(fields, m)
    ensures isDefault == AllDefault(fields, m, 0)
    decreases fields
  {
    hide IsDefault, AllDefault, ConformsSlot, SlotIdx, ValidField, PData, PSize;
    var iter := new Iter.Begin(fields);
    if fields == [] {
      assert AllDefault(fields, m, 0) by { EmptyTable(m); }
      return true;
    }
    var more := true;
    while more
      invariant iter.Valid() && iter.start == fields && fresh(iter)
      invariant AllDefault(fields, m, 0) == (more ==> AllDefault(fields, m, iter.pos))
      decreases more, |fields| - iter.pos
    {
      AllDefaultStep(fields, m, iter.pos);
      assert ConformsSlot(fields[iter.pos], m[SlotIdx(fields, iter.pos)], false);
      var ok := CheckProto3Default(fields[iter.pos], m[SlotIdx(fields, iter.pos)]);
      if !ok { return false; }
      more := iter.Next();
    }
    return true;
  }

  // ---------- fields and messages ----------

  /** `encode_basic_field`. */
  method EncField(stream: OStream, f: Field, s: Slot) returns (st: Status)
    requires stream.Valid() && ValidField(f) && ConformsSlot(f, s, false) && SlotPayloadsFit(f, s, UINT64)
    modifies stream, stream.buf
    ensures stream.Puts(old(stream.Here()), st, EncodeField(f, s))
    decreases f, 4
  {
    hide EncodeTagged, EncodeArray, ConformsValue, PayloadFits, IsDefault, ValidField;
    stream.Idle();
    st := Done;
    match f.htype {
      case Required => st := EncTagged(stream, f, s.v);
      case Optional =>
        if HasSizeField(f) {
          if s.has { st := EncTagged(stream, f, s.ov); }
        } else {
          var isDefault := CheckProto3Default(f, s);
          if !isDefault { st := EncTagged(stream, f, s.v); }
        }
      case Repeated => st := EncArray(stream, f, s.items);
      case Oneof => if s.which == f.tag { st := EncTagged(stream, f, s.member); }
    }
  }

  lemma {:induction false} EncodeFromStep(fields: seq<Field>, m: seq<Slot>, i: nat)
    requires |m| == NumSlots(fields) && i < |fields|
    ensures SlotIdx(fields, i) < |m|
    ensures EncodeFrom(fields, m, i)
         == Append(EncodeField(fields[i], m[SlotIdx(fields, i)]), EncodeFrom(fields, m, i + 1))
    ensures EncodeFrom(fields, m, |fields|) == Some([])
  {
    hide EncodeField;
    SlotInRange(fields, i);
  }

  lemma {:induction false} EncodeFromStart(fields: seq<Field>, m: seq<Slot>)
    requires |m| == NumSlots(fields)
    ensures EncodeMsg(fields, m) == EncodeFrom(fields, m, 0)
  {
  }

  /** `pb_encode`: into a buffer it succeeds exactly when the encoding fits the room left. */
  method EncodeMessage(stream: OStream, fields: seq<Field>, m: seq<Slot>) returns (st: Status)
    requires stream.Valid() && ValidSchema(fields) && Typed(fields, m) && Sized(fields, m)
    modifies stream, stream.buf
    ensures stream.Puts(old(stream.Here()), st, EncodeMsg(fields, m))
    decreases fields, 1
  {
    hide EncodeFrom, EncodeField, EncodeMsg, ConformsSlot, SlotPayloadsFit, SlotIdx, ValidField, Advance, Append;
    hide PData, PSize, RequiredBefore;
    ghost var from, done := stream.Here(), [];
    stream.Idle();
    var iter := new Iter.Begin(fields);
    if fields == [] {
      assert EncodeMsg(fields, m) == Some([]) by { EmptyTable(m); }
      return Done;
    }
    AppendNext(done, None, EncodeMsg(fields, m));
    assert EncodeMsg(fields, m) == EncodeFrom(fields, m, 0) by { EncodeFromStart(fields, m); }
    var more := true;
    while more
      invariant iter.Valid() && iter.start == fields && fresh(iter)
      invariant stream.Puts(from, Done, Some(done))
      invariant EncodeMsg(fields, m) == Append(Some(done), if more then EncodeFrom(fields, m, iter.pos) else Some([]))
      decreases more, |fields| - iter.pos
    {
      var i := iter.pos;
      EncodeFromStep(fields, m, i);
      ghost var b := EncodeField(fields[i], m[SlotIdx(fields, i)]);
      AppendNext(done, b, EncodeFrom(fields, m, i + 1));
      assert ConformsSlot(fields[i], m[SlotIdx(fields, i)], false);
      st := EncField(stream, fields[i], m[SlotIdx(fields, i)]);
      stream.Carry(from, done, st, b);
      if st != Done { return; }
      done := done + b.value;
      more := iter.Next();
    }
    AppendNext(done, None, None);
    return Done;
  }

  /** `pb_encode_delimited`. */
  method EncodeDelimited(stream: OStream, fields: seq<Field>, m: seq<Slot>) returns (st: Status)
    requires stream.Valid() && ValidSchema(fields) && Typed(fields, m) && Sized(fields, m)
    modifies stream, stream.buf
    ensures stream.Puts(old(stream.Here()), st, EncodeSpec.EncodeDelimited(fields, m))
  {
    st := EncodeSubmessage(stream, fields, m);
  }

  /** `pb_get_encoded_size`: the size of what `pb_encode` writes. */
  method GetEncodedSize(fields: seq<Field>, m: seq<Slot>) returns (ok: bool, size: nat)
    requires ValidSchema(fields) && Typed(fields, m) && Sized(fields, m)
    ensures ok <==> EncodeMsg(fields, m).Some?
    ensures ok ==> size == |EncodeMsg(fields, m).value|
  {
    hide EncodeMsg, ConformsMsg, Sized;
    var stream := new OStream.SizingStream();
    var st := EncodeMessage(stream, fields, m);
    if st != Done { return false, 0; }
    return true, stream.bytesWritten;
  }
}
