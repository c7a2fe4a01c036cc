/** Reading numbers, keys and payloads from an input stream (`pb_decode.c`). */
module WireReader {
  import opened Bytes
  import opened Varint
  import opened Streams

  /** `pb_decode_varint32_eof`. */
  method DecodeVarint32Eof(stream: IStream) returns (ok: bool, dest: nat, eof: bool)
    requires stream.Valid()
    modifies stream
    ensures stream.Yields(old(stream.End()), ok, dest, DecVarint32(old(stream.Left())))
    ensures eof <==> old(stream.Left()) == []
  {
    ghost var s, end := stream.Left(), stream.End();
    eof, dest := false, 0;
    var got, b := stream.ReadByte();
    if !got { return false, 0, stream.bytesLeft == 0; }
    if b < 128 { return true, b, false; }
    assert s == [b] + stream.Left();
    DecVarint32First(b, stream.Left());
    var bitpos, result := 7, b - 128;
    var more := true;
    while more
      invariant stream.Valid() && stream.End() == end
      invariant 0 <= bitpos < 256 && 0 <= result < UINT32
      invariant more ==> DecVarint32(s) == DecVarint32From(stream.Left(), bitpos, result)
      invariant !more ==> DecVarint32(s) == if bitpos == 35 && b / 16 % 8 != 0 then Bad else Good(result, stream.Left())
      decreases stream.bytesLeft
    {
      hide Or32;
      ghost var left := stream.Left();
      got, b := stream.ReadByte();
      if !got { return false, 0, false; }
      assert left[1..] == stream.Left();
      if bitpos >= 32 {
        if b % 128 != 0 && (result < UINT31 || b != SignExtension(bitpos)) { return false, 0, false; }
      } else {
        result := Or32(result, b, bitpos);
      }
      bitpos := (bitpos + 7) % 256;
      more := b >= 128;
    }
    if bitpos == 35 && b / 16 % 8 != 0 { return false, 0, false; }
    return true, result, false;
  }

  /** `pb_decode_varint32`. */
  method DecodeVarint32(stream: IStream) returns (ok: bool, dest: nat)
    requires stream.Valid()
    modifies stream
    ensures stream.Yields(old(stream.End()), ok, dest, DecVarint32(old(stream.Left())))
  {
    var eof;
    ok, dest, eof := DecodeVarint32Eof(stream);
  }

  /** `pb_decode_varint`. */
  method DecodeVarint(stream: IStream) returns (ok: bool, dest: nat)
    requires stream.Valid()
    modifies stream
    ensures stream.Yields(old(stream.End()), ok, dest, DecVarint(old(stream.Left())))
  {
    ghost var s, end := stream.Left(), stream.End();
    var bitpos, result, more := 0, 0, true;
    while more
      invariant stream.Valid() && stream.End() == end
      invariant 0 <= bitpos <= 70 && 0 <= result < UINT64
      invariant DecVarint(s)
             == if more then DecVarintFrom(stream.Left(), bitpos, result) else Good(result, stream.Left())
      decreases stream.bytesLeft
    {
      hide Or64;
      ghost var left := stream.Left();
      if bitpos >= 64 { return false, 0; }
      var got, b := stream.ReadByte();
      if !got { return false, 0; }
      assert left[1..] == stream.Left();
      result := Or64(result, b, bitpos);
      bitpos := bitpos + 7;
      more := b >= 128;
    }
    return true, result;
  }

  /** `pb_decode_svarint`. */
  method DecodeSVarint(stream: IStream) returns (ok: bool, dest: int)
    requires stream.Valid()
    modifies stream
    ensures ok ==> -UINT63 <= dest < UINT63
    ensures stream.Yields(old(stream.End()), ok, if ok then Zigzag(dest) else 0, DecVarint(old(stream.Left())))
  {
    var value;
    ok, value := DecodeVarint(stream);
    if !ok { return false, 0; }
    dest := if value % 2 == 1 then ToInt64(UINT64 - 1 - value / 2) else ToInt64(value / 2);
    ZigzagInverse(0, value);
  }

  /** Four bytes from `i` on, shifted into place. */
  function Word(b: seq<byte>, i: nat): nat
    requires i + 4 <= |b|
  {
    (b[i] as int) + 0x100 * (b[i + 1] as int) + 0x1_0000 * (b[i + 2] as int) + 0x100_0000 * (b[i + 3] as int)
  }

  lemma {:induction false} FixedValueSplit(b: seq<byte>)
    requires |b| >= 4
    ensures FixedValue(b) == Word(b, 0) + 0x1_0000_0000 * FixedValue(b[4..])
  {
    assert b[1..][1..] == b[2..] && b[2..][1..] == b[3..] && b[3..][1..] == b[4..];
    assert FixedValue(b[3..]) == b[3] + 256 * FixedValue(b[4..]);
    assert FixedValue(b[2..]) == b[2] + 256 * FixedValue(b[3..]);
    assert FixedValue(b[1..]) == b[1] + 256 * FixedValue(b[2..]);
  }

  /** `pb_decode_fixed32`. */
  method DecodeFixed32(stream: IStream) returns (ok: bool, dest: nat)
    requires stream.Valid()
    modifies stream
    ensures stream.Yields(old(stream.End()), ok, dest, DecFixed(old(stream.Left()), 4))
  {
    var b;
    ok, b := stream.Read(4);
    if !ok { return false, 0; }
    dest := Word(b, 0);
    FixedValueSplit(b);
  }

  /** `pb_decode_fixed64`. */
  method DecodeFixed64(stream: IStream) returns (ok: bool, dest: nat)
    requires stream.Valid()
    modifies stream
    ensures stream.Yields(old(stream.End()), ok, dest, DecFixed(old(stream.Left()), 8))
  {
    var b;
    ok, b := stream.Read(8);
    if !ok { return false, 0; }
    dest := Word(b, 0) + 0x1_0000_0000 * Word(b, 4);
    FixedValueSplit(b);
    FixedValueSplit(b[4..]);
  }

  /** `pb_skip_varint`. */
  method DoSkipVarint(stream: IStream) returns (ok: bool)
    requires stream.Valid()
    modifies stream
    ensures stream.Yields(old(stream.End()), ok, (), SkipVarint(old(stream.Left())))
  {
    ghost var s, end := stream.Left(), stream.End();
    var more := true;
    while more
      invariant stream.Valid() && stream.End() == end
      invariant SkipVarint(s) == if more then SkipVarint(stream.Left()) else Good((), stream.Left())
      decreases stream.bytesLeft
    {
      var got, b := stream.Read(1);
      if !got { return false; }
      more := b[0] >= 128;
    }
    return true;
  }

  /** The payload of `pb_skip_string` and of a substream, dropped. */
  function Dropped<T>(p: Parse<T>): Parse<()> {
    match p case Bad => Bad case Good(_, rest) => Good((), rest)
  }

  /** `pb_skip_string`. */
  method SkipString(stream: IStream) returns (ok: bool)
    requires stream.Valid()
    modifies stream
    ensures stream.Yields(old(stream.End()), ok, (), Dropped(TakeDelimited(old(stream.Left()))))
  {
    var length, b;
    ok, length := DecodeVarint32(stream);
    if !ok { return; }
    ok, b := stream.Read(length);
  }

  /** `pb_skip_field`. */
  method DoSkipField(stream: IStream, wire: nat) returns (ok: bool)
    requires stream.Valid()
    modifies stream
    ensures stream.Yields(old(stream.End()), ok, (), SkipField(wire, old(stream.Left())))
  {
    var b;
    match wire {
      case 0 => ok := DoSkipVarint(stream);
      case 1 => ok, b := stream.Read(8);
      case 2 => ok := SkipString(stream);
      case 5 => ok, b := stream.Read(4);
      case _ => ok := false;
    }
  }

  /** `pb_decode_tag`. A zero key reads as the end of the message. */
  method DecodeTag(stream: IStream) returns (ok: bool, wire: nat, tag: nat, eof: bool)
    requires stream.Valid() && stream.bytesLeft > 0
    modifies stream
    ensures var key := DecVarint32(old(stream.Left()));
            stream.Valid() && stream.End() <= old(stream.End())
            && (ok <==> key.Good? && key.value != 0)
            && (eof <==> key.Good? && key.value == 0)
            && (ok ==> wire == key.value % 8 && tag == key.value / 8)
            && (ok || eof ==> stream.Left() == key.rest && stream.End() == old(stream.End()))
  {
    var key;
    ok, key, eof := DecodeVarint32Eof(stream);
    if !ok { return false, 0, 0, eof; }
    if key == 0 { return false, 0, 0, true; }
    return true, key % 8, key / 8, false;
  }

  lemma {:induction false} SliceSplit(data: seq<byte>, from: nat, n: nat, end: nat)
    requires from + n <= end <= |data|
    ensures data[from..end][..n] == data[from..from + n] && data[from..end][n..] == data[from + n..end]
  {
  }

  /** `pb_make_string_substream`. The position of `stream` itself stays at the start of the
      payload until the substream is closed; its limit already leaves the payload out. */
  method MakeStringSubstream(stream: IStream) returns (ok: bool, sub: IStream?)
    requires stream.Valid()
    modifies stream
    ensures stream.Valid() && stream.End() <= old(stream.End())
    ensures ok <==> TakeDelimited(old(stream.Left())).Good?
    ensures ok ==> sub != null && fresh(sub) && sub.Valid() && sub.data == stream.data && Parent(stream, sub)
    ensures ok ==> sub.End() + stream.bytesLeft == old(stream.End())
    ensures ok ==> TakeDelimited(old(stream.Left()))
                   == Good(sub.Left(), stream.data[sub.End()..sub.End() + stream.bytesLeft])
    ensures ok ==> sub.bytesLeft < old(stream.bytesLeft)
  {
    hide DecVarint32;
    sub := null;
    var size;
    ok, size := DecodeVarint32(stream);
    if !ok { return; }
    if stream.bytesLeft < size { return false, null; }
    SliceSplit(stream.data, stream.state, size, stream.state + stream.bytesLeft);
    sub := new IStream.Limited(stream, size);
    stream.bytesLeft := stream.bytesLeft - size;
  }

  /** What follows the substream `sub` is still in the buffer of `stream`. */
  ghost predicate Parent(stream: IStream, sub: IStream)
    reads stream, sub
  {
    sub.data == stream.data && sub.End() + stream.bytesLeft <= |stream.data|
  }

  /** `pb_close_string_substream`: whatever of the payload is unread is skipped. */
  method CloseStringSubstream(stream: IStream, sub: IStream) returns (ok: bool)
    requires stream != sub && sub.Valid() && Parent(stream, sub)
    modifies stream, sub
    ensures ok && stream.Valid() && stream.state == old(sub.End()) && stream.bytesLeft == old(stream.bytesLeft)
  {
    if sub.bytesLeft != 0 {
      var b;
      ok, b := sub.Read(sub.bytesLeft);
    }
    stream.state := sub.state;
    ok := true;
  }
}
