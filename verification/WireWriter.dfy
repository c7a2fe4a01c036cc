/** Writing numbers, tags and strings to an output stream (`pb_encode.c`). */
module WireWriter {
  import opened Bytes
  import opened Schema
  import opened Varint
  import opened EncodeSpec
  import opened Streams

  /** One more digit: `done` are the digits before `v`, all with their continuation bit set. */
  lemma {:induction false} DigitStep(value: nat, done: seq<byte>, v: nat)
    requires value < UINT64 && EncVarint(value) == done + EncVarint(v)
    ensures |done| < 10
    ensures v >= 128 ==> EncVarint(value) == done + [v % 128 + 128] + EncVarint(v / 128)
    ensures v < 128 ==> EncVarint(value) == done + [v]
  {
    EncVarintAtMost10(value);
    EncVarintStep(v, []);
    assert EncVarint(v) + [] == EncVarint(v) && EncVarint(v / 128) + [] == EncVarint(v / 128);
  }

  /** The loop of `pb_encode_varint` and the fix of the last byte: the digits of a value that
      takes more than one. */
  method VarintDigits(value: nat) returns (buffer: array<byte>, i: nat)
    requires 0x7F < value < UINT64
    ensures fresh(buffer) && i <= buffer.Length == 10 && buffer[..i] == EncVarint(value)
  {
    hide EncVarint;
    buffer := new byte[10];
    i := 0;
    var v := value;
    assert buffer[..0] + EncVarint(v) == EncVarint(v);
    while v != 0
      invariant 0 <= i <= 10 && (i == 0 ==> v != 0)
      invariant v != 0 ==> EncVarint(value) == buffer[..i] + EncVarint(v)
      invariant v == 0 ==> buffer[i - 1] >= 128
                           && EncVarint(value) == buffer[..i - 1] + [buffer[i - 1] - 128]
      decreases v
    {
      ghost var done := buffer[..i];
      DigitStep(value, done, v);
      buffer[i] := v % 128 + 128;
      assert buffer[..i] == done && buffer[..i + 1] == done + [v % 128 + 128];
      v := v / 128;
      i := i + 1;
    }
    buffer[i - 1] := buffer[i - 1] - 128;
    assert buffer[..i] == buffer[..i - 1] + [buffer[i - 1]];
  }

  /** `pb_encode_varint`. */
  method EncodeVarint(stream: OStream, value: nat) returns (st: Status)
    requires stream.Valid() && value < UINT64
    modifies stream, stream.buf
    ensures stream.Puts(old(stream.Here()), st, Some(EncVarint(value)))
  {
    if value <= 0x7F {
      st := stream.Write([value]);
    } else {
      var buffer, i := VarintDigits(value);
      st := stream.Write(buffer[..i]);
    }
  }

  /** `pb_encode_svarint`. */
  method EncodeSVarint(stream: OStream, value: int) returns (st: Status)
    requires stream.Valid() && -UINT63 <= value < UINT63
    modifies stream, stream.buf
    ensures stream.Puts(old(stream.Here()), st, Some(EncVarint(Zigzag(value))))
  {
    var shifted := Low64(2 * ToUint64(value));
    st := EncodeVarint(stream, if value < 0 then UINT64 - 1 - shifted else shifted);
  }

  /** `pb_encode_fixed32`. */
  method EncodeFixed32(stream: OStream, val: nat) returns (st: Status)
    requires stream.Valid() && val < UINT32
    modifies stream, stream.buf
    ensures stream.Puts(old(stream.Here()), st, Some(EncFixed(4, val)))
  {
    var bytes: seq<byte> := [val % 256, val / 0x100 % 256, val / 0x1_0000 % 256, val / 0x100_0000 % 256];
    FixedBytes4(val);
    st := stream.Write(bytes);
  }

  lemma {:induction false} FixedBytes4(val: nat)
    ensures EncFixed(4, val) == [val % 256, val / 0x100 % 256, val / 0x1_0000 % 256, val / 0x100_0000 % 256]
  {
    var v1 := val / 256;
    var v2 := v1 / 256;
    var v3 := v2 / 256;
    assert v1 == val / 0x100 && v2 == val / 0x1_0000 && v3 == val / 0x100_0000;
    assert EncFixed(1, v3) == [v3 % 256] + EncFixed(0, v3 / 256);
    assert EncFixed(2, v2) == [v2 % 256] + EncFixed(1, v3);
    assert EncFixed(3, v1) == [v1 % 256] + EncFixed(2, v2);
  }

  lemma {:induction false} FixedBytes8(val: nat)
    ensures EncFixed(8, val) == EncFixed(4, val) + EncFixed(4, val / 0x1_0000_0000)
  {
    var v1 := val / 256;
    var v2 := v1 / 256;
    var v3 := v2 / 256;
    assert v3 / 256 == val / 0x1_0000_0000;
    calc {
      EncFixed(8, val);
      [val % 256] + EncFixed(7, v1);
      [val % 256] + ([v1 % 256] + EncFixed(6, v2));
      [val % 256] + ([v1 % 256] + ([v2 % 256] + EncFixed(5, v3)));
      [val % 256] + ([v1 % 256] + ([v2 % 256] + ([v3 % 256] + EncFixed(4, v3 / 256))));
      [val % 256, v1 % 256, v2 % 256, v3 % 256] + EncFixed(4, v3 / 256);
      { FixedBytes4(val); }
      EncFixed(4, val) + EncFixed(4, val / 0x1_0000_0000);
    }
  }

  /** `pb_encode_fixed64`. */
  method EncodeFixed64(stream: OStream, val: nat) returns (st: Status)
    requires stream.Valid() && val < UINT64
    modifies stream, stream.buf
    ensures stream.Puts(old(stream.Here()), st, Some(EncFixed(8, val)))
  {
    hide EncFixed, Advance;
    var high := val / 0x1_0000_0000;
    var bytes: seq<byte> := [val % 256, val / 0x100 % 256, val / 0x1_0000 % 256, val / 0x100_0000 % 256,
                             high % 256, high / 0x100 % 256, high / 0x1_0000 % 256, high / 0x100_0000 % 256];
    FixedBytes8(val);
    FixedBytes4(val);
    FixedBytes4(high);
    assert bytes == EncFixed(4, val) + EncFixed(4, high);
    st := stream.Write(bytes);
  }

  /** `pb_encode_tag`. */
  method EncodeTag(stream: OStream, wire: nat, tag: nat) returns (st: Status)
    requires stream.Valid() && wire < 8 && tag < UINT32
    modifies stream, stream.buf
    ensures stream.Puts(old(stream.Here()), st, Some(EncTag(tag, wire)))
  {
    st := EncodeVarint(stream, 8 * tag + wire);
  }

  /** `pb_encode_tag_for_field`. */
  method EncodeTagForField(stream: OStream, f: Field) returns (st: Status)
    requires stream.Valid() && f.tag < UINT32
    modifies stream, stream.buf
    ensures stream.Puts(old(stream.Here()), st, Some(EncTag(f.tag, WireType(f.ltype))))
  {
    var wire;
    match f.ltype {
      case LBool => wire := 0;
      case LVarint => wire := 0;
      case LUVarint => wire := 0;
      case LSVarint => wire := 0;
      case LFixed32 => wire := 5;
      case LFixed64 => wire := 1;
      case LBytes => wire := 2;
      case LString => wire := 2;
      case LSubmessage => wire := 2;
      case LFixedBytes => wire := 2;
    }
    st := EncodeTag(stream, wire, f.tag);
  }

  /** `pb_encode_string`. */
  method EncodeString(stream: OStream, s: seq<byte>) returns (st: Status)
    requires stream.Valid() && |s| < UINT64
    modifies stream, stream.buf
    ensures stream.Puts(old(stream.Here()), st, Some(EncString(s)))
  {
    ghost var from := stream.Here();
    st := EncodeVarint(stream, |s|);
    if st != Done { return; }
    st := stream.Write(s);
    stream.Carry(from, EncVarint(|s|), st, Some(s));
  }
}
