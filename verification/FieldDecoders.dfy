/** The field decoders of `pb_decode.c` that do not recurse, reading from a stream. Each of
    them reads exactly what `DecodeSpec.DecodeScalar` does. */
module FieldDecoders {
  import opened Bytes
  import opened Schema
  import opened Varint
  import opened DecodeSpec
  import opened Streams
  import opened WireReader

  // ---------- casts to the field size ----------

  /** `r` modulo `m`, read as two's complement. */
  function Fold(r: int, m: int): int {
    if 2 * r < m then r else r - m
  }

  /** The cast of an int64 to the signed type of `size` bytes. */
  function CastSigned(size: nat, i: int): int {
    match size
    case 1 => Fold(i % 0x100, 0x100)
    case 2 => Fold(i % 0x1_0000, 0x1_0000)
    case 4 => Fold(i % 0x1_0000_0000, 0x1_0000_0000)
    case _ => i
  }

  function CastUnsigned(size: nat, i: nat): nat {
    match size
    case 1 => i % 0x100
    case 2 => i % 0x1_0000
    case 4 => i % 0x1_0000_0000
    case _ => i
  }

  predicate KnownSize(size: nat) {
    size == 1 || size == 2 || size == 4 || size == 8
  }

  /** Comparing a cast with the original detects exactly the values that do not fit. */
  lemma {:induction false} CastExact(size: nat, i: int)
    requires -UINT63 <= i < UINT64 && KnownSize(size)
    ensures i < UINT63 ==> (CastSigned(size, i) == i <==> SignedFits(size, i))
    ensures 0 <= i ==> (CastUnsigned(size, i) == i <==> UnsignedFits(size, i))
  {
  }

  // ---------- the decoders ----------

  /** `pb_dec_bool`. */
  method DecBool(stream: IStream, f: Field, ghost base: Value) returns (ok: bool, v: Value)
    requires stream.Valid() && f.ltype.LBool?
    modifies stream
    ensures stream.Yields(old(stream.End()), ok, v, DecodeScalar(f, old(stream.Left()), base))
  {
    hide DecVarint32;
    var value;
    ok, value := DecodeVarint32(stream);
    v := VBool(value != 0);
  }

  /** `pb_dec_varint`. */
  method DecVarintField(stream: IStream, f: Field, ghost base: Value) returns (ok: bool, v: Value)
    requires stream.Valid() && f.ltype.LVarint?
    modifies stream
    ensures stream.Yields(old(stream.End()), ok, v, DecodeScalar(f, old(stream.Left()), base))
  {
    hide DecVarint, CastSigned, ToInt64, ToInt32;
    v := VInt(0);
    var value;
    ok, value := DecodeVarint(stream);
    if !ok { return; }
    var svalue := if f.dataSize == 8 then ToInt64(value) else ToInt32(value);
    if !KnownSize(f.dataSize) { return false, v; }
    CastExact(f.dataSize, svalue);
    var clamped := CastSigned(f.dataSize, svalue);
    if clamped != svalue { return false, v; }
    v := VInt(clamped);
  }

  /** `pb_dec_uvarint`. */
  method DecUVarintField(stream: IStream, f: Field, ghost base: Value) returns (ok: bool, v: Value)
    requires stream.Valid() && f.ltype.LUVarint?
    modifies stream
    ensures stream.Yields(old(stream.End()), ok, v, DecodeScalar(f, old(stream.Left()), base))
  {
    hide DecVarint, CastUnsigned;
    v := VInt(0);
    var value;
    ok, value := DecodeVarint(stream);
    if !ok { return; }
    if !KnownSize(f.dataSize) { return false, v; }
    CastExact(f.dataSize, value);
    var clamped := CastUnsigned(f.dataSize, value);
    if clamped != value { return false, v; }
    v := VInt(clamped);
  }

  /** `pb_dec_svarint`. */
  method DecSVarintField(stream: IStream, f: Field, ghost base: Value) returns (ok: bool, v: Value)
    requires stream.Valid() && f.ltype.LSVarint?
    modifies stream
    ensures stream.Yields(old(stream.End()), ok, v, DecodeScalar(f, old(stream.Left()), base))
  {
    hide DecVarint, CastSigned, Zigzag;
    v := VInt(0);
    var value;
    ok, value := DecodeSVarint(stream);
    if !ok { return; }
    ZigzagInverse(value, 0);
    if !KnownSize(f.dataSize) { return false, v; }
    CastExact(f.dataSize, value);
    var clamped := CastSigned(f.dataSize, value);
    if clamped != value { return false, v; }
    v := VInt(clamped);
  }

  /** `pb_dec_fixed32` and `pb_dec_fixed64`. */
  method DecFixedField(stream: IStream, f: Field, ghost base: Value) returns (ok: bool, v: Value)
    requires stream.Valid() && (f.ltype.LFixed32? || f.ltype.LFixed64?)
    modifies stream
    ensures stream.Yields(old(stream.End()), ok, v, DecodeScalar(f, old(stream.Left()), base))
  {
    hide FixedValue;
    var value;
    if f.ltype.LFixed32? {
      ok, value := DecodeFixed32(stream);
    } else {
      ok, value := DecodeFixed64(stream);
    }
    v := VInt(value);
  }

  /** `pb_dec_bytes`. */
  method DecBytes(stream: IStream, f: Field, ghost base: Value) returns (ok: bool, v: Value)
    requires stream.Valid() && f.ltype.LBytes?
    modifies stream
    ensures stream.Yields(old(stream.End()), ok, v, DecodeScalar(f, old(stream.Left()), base))
  {
    hide DecVarint32;
    v := VBytes([]);
    var size, content;
    ok, size := DecodeVarint32(stream);
    if !ok { return; }
    if size > PB_SIZE_MAX { return false, v; }
    if BYTES_OFFSET + size > f.dataSize { return false, v; }
    ok, content := stream.Read(size);
    v := VBytes(content);
  }

  /** `pb_dec_string`: what the array held after the NUL stays there. */
  method DecString(stream: IStream, f: Field, base: Value) returns (ok: bool, v: Value)
    requires stream.Valid() && f.ltype.LString? && base.VString? && |base.chars| == f.dataSize
    modifies stream
    ensures stream.Yields(old(stream.End()), ok, v, DecodeScalar(f, old(stream.Left()), base))
  {
    hide DecVarint32;
    v := base;
    var size, content;
    ok, size := DecodeVarint32(stream);
    if !ok { return; }
    if size + 1 > f.dataSize { return false, v; }
    ok, content := stream.Read(size);
    if ok { v := VString(StoreString(base.chars, content)); }
  }

  /** `pb_dec_fixed_length_bytes`. */
  method DecFixedLengthBytes(stream: IStream, f: Field, ghost base: Value) returns (ok: bool, v: Value)
    requires stream.Valid() && f.ltype.LFixedBytes?
    modifies stream
    ensures stream.Yields(old(stream.End()), ok, v, DecodeScalar(f, old(stream.Left()), base))
  {
    hide DecVarint32;
    v := VFixedBytes([]);
    var size, content;
    ok, size := DecodeVarint32(stream);
    if !ok { return; }
    if size > PB_SIZE_MAX { return false, v; }
    if size == 0 {
      assert stream.Left()[..0] == [] && stream.Left()[0..] == stream.Left();
      return true, VFixedBytes(Zeros(f.dataSize));
    }
    if size != f.dataSize { return false, v; }
    ok, content := stream.Read(f.dataSize);
    v := VFixedBytes(content);
  }

  /** What a destination of a field that is not a submessage must be able to hold. */
  predicate Destination(f: Field, base: Value) {
    f.ltype.LString? ==> base.VString? && |base.chars| == f.dataSize
  }

  /** The field decoders `PB_DECODERS`, but for submessages. */
  method DecScalar(stream: IStream, f: Field, base: Value) returns (ok: bool, v: Value)
    requires stream.Valid() && !f.ltype.LSubmessage? && Destination(f, base)
    modifies stream
    ensures stream.Yields(old(stream.End()), ok, v, DecodeScalar(f, old(stream.Left()), base))
  {
    hide DecodeScalar;
    match f.ltype {
      case LBool => ok, v := DecBool(stream, f, base);
      case LVarint => ok, v := DecVarintField(stream, f, base);
      case LUVarint => ok, v := DecUVarintField(stream, f, base);
      case LSVarint => ok, v := DecSVarintField(stream, f, base);
      case LFixed32 => ok, v := DecFixedField(stream, f, base);
      case LFixed64 => ok, v := DecFixedField(stream, f, base);
      case LBytes => ok, v := DecBytes(stream, f, base);
      case LString => ok, v := DecString(stream, f, base);
      case LFixedBytes => ok, v := DecFixedLengthBytes(stream, f, base);
    }
  }
}
