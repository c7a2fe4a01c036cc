/** Input and output streams over memory buffers: `pb_istream_t` and `pb_ostream_t`. */
module Streams {
  import opened Bytes

  /** A buffer input stream. `state` points into the buffer, `bytesLeft` limits how far it
      may advance; a substream has the same buffer and a lower limit. */
  class IStream {
    const data: seq<byte>
    var state: nat
    var bytesLeft: nat

    ghost predicate Valid()
      reads this
    {
      state + bytesLeft <= |data|
    }

    /** Where the stream's bytes end. Every successful read keeps it. */
    ghost function End(): nat
      reads this
    {
      state + bytesLeft
    }

    /** The bytes still to be read. */
    ghost function Left(): seq<byte>
      requires Valid()
      reads this
    {
      data[state..state + bytesLeft]
    }

    /** `pb_istream_from_buffer`. */
    constructor FromBuffer(buf: seq<byte>)
      ensures Valid() && data == buf && Left() == buf && End() == |buf| && state == 0
    {
      data, state, bytesLeft := buf, 0, |buf|;
    }

    /** `*substream = *stream` with the limit lowered to `size`. */
    constructor Limited(stream: IStream, size: nat)
      requires stream.Valid() && size <= stream.bytesLeft
      ensures Valid() && data == stream.data && state == stream.state && bytesLeft == size
    {
      data, state, bytesLeft := stream.data, stream.state, size;
    }

    /** The outcome of a read that started with `end` as its end and should have parsed as
        `spec`: it succeeds exactly when `spec` does, with its value, and the stream then
        stands at what `spec` leaves unread, its end unmoved. Not even a failed read
        reaches beyond `end`. */
    ghost predicate Yields<T>(end: nat, ok: bool, value: T, spec: Parse<T>)
      reads this
    {
      Valid() && End() <= end && (ok <==> spec.Good?) && (ok ==> End() == end && spec == Good(value, Left()))
    }

    /** `pb_readbyte`. */
    method ReadByte() returns (ok: bool, b: byte)
      requires Valid()
      modifies this
      ensures Valid() && End() == old(End())
      ensures ok <==> old(Left()) != []
      ensures ok ==> old(Left()) == [b] + Left()
      ensures !ok ==> bytesLeft == 0
    {
      if bytesLeft == 0 { return false, 0; }
      b := data[state];
      state, bytesLeft := state + 1, bytesLeft - 1;
      ok := true;
    }

    /** `pb_read`: all of `count` bytes or none. */
    method Read(count: nat) returns (ok: bool, buf: seq<byte>)
      requires Valid()
      modifies this
      ensures Yields(old(End()), ok, buf, Take(old(Left()), count))
      ensures !ok ==> state == old(state) && bytesLeft == old(bytesLeft)
    {
      ghost var was := Left();
      buf := [];
      if count == 0 {
        assert was[..0] == [] && was[0..] == was;
        return true, [];
      }
      if bytesLeft < count { return false, []; }
      buf := data[state..state + count];
      state, bytesLeft := state + count, bytesLeft - count;
      ok := true;
      assert was[..count] == buf && was[count..] == Left();
    }
  }

  /** How a call of the encoder ends. `Invalid` stands for the errors in the struct or its table. */
  datatype Status = Done | StreamFull | Invalid | SizeChanged

  /** Where an output stream stands: its counter, its write position and all of its buffer. */
  datatype Mark = Mark(written: nat, at: nat, image: seq<byte>)

  /** The stream after exactly `b` more bytes; a sizing stream only counts them. */
  function Advance(m: Mark, sizing: bool, b: seq<byte>): (r: Mark)
    requires sizing || m.at + |b| <= |m.image|
    ensures r.written == m.written + |b| && r.at == (if sizing then m.at else m.at + |b|) && |r.image| == |m.image|
  {
    if sizing then m.(written := m.written + |b|)
    else Mark(m.written + |b|, m.at + |b|, m.image[..m.at] + b + m.image[m.at + |b|..])
  }

  /** Two pieces written one after the other are one piece. */
  lemma {:induction false} AdvanceTwice(m: Mark, sizing: bool, a: seq<byte>, b: seq<byte>)
    requires sizing || m.at + |a| + |b| <= |m.image|
    ensures Advance(Advance(m, sizing, a), sizing, b) == Advance(m, sizing, a + b)
  {
    if !sizing {
      var mid := m.image[..m.at] + a + m.image[m.at + |a|..];
      assert mid[..m.at + |a|] == m.image[..m.at] + a;
      assert mid[m.at + |a| + |b|..] == m.image[m.at + |a| + |b|..];
    }
  }

  /** A substream that starts counting at 0 moves like the stream itself. */
  lemma {:induction false} AdvanceSub(m: Mark, b: seq<byte>)
    requires m.at + |b| <= |m.image|
    ensures var sub := Advance(Mark(0, m.at, m.image), false, b);
            Advance(m, false, b) == Mark(m.written + sub.written, sub.at, sub.image)
  {
  }

  /** An output stream: into a buffer, or, when `buf` is null (no callback), only counting. */
  class OStream {
    const buf: array?<byte>
    const maxSize: nat
    var state: nat
    var bytesWritten: nat

    ghost predicate Valid()
      reads this
    {
      buf != null ==> bytesWritten <= maxSize && state + (maxSize - bytesWritten) <= buf.Length
    }

    predicate Sizing() {
      buf == null
    }

    ghost function Here(): (m: Mark)
      reads this, buf
    {
      Mark(bytesWritten, state, if buf == null then [] else buf[..])
    }

    /** `n` more bytes fit after `from`. */
    predicate Fits(from: Mark, n: nat) {
      buf == null || from.written + n <= maxSize
    }

    /** The outcome of a call that started at `from` and should have written `b`: it writes
        exactly `b` if there is such an encoding and room for it, and fails otherwise, for
        lack of room if there is one. */
    ghost predicate Puts(from: Mark, st: Status, b: Option<seq<byte>>)
      reads this, buf
    {
      Valid() && st != SizeChanged
      && (st == Done <==> b.Some? && Fits(from, |b.value|))
      && (b.Some? && st != Done ==> st == StreamFull)
      && (st == Done ==>
            (buf == null || from.at + |b.value| <= |from.image|)
            && Here() == Advance(from, Sizing(), b.value))
    }

    /** `PB_OSTREAM_SIZING`. */
    constructor SizingStream()
      ensures Valid() && Sizing() && bytesWritten == 0
    {
      buf, maxSize, state, bytesWritten := null, 0, 0, 0;
    }

    /** `pb_ostream_from_buffer`. */
    constructor FromBuffer(b: array<byte>)
      ensures Valid() && buf == b && maxSize == b.Length && state == 0 && bytesWritten == 0
    {
      buf, maxSize, state, bytesWritten := b, b.Length, 0, 0;
    }

    /** The substream a submessage of `size` bytes is written through. */
    constructor Limited(stream: OStream, size: nat)
      requires stream.Valid() && !stream.Sizing() && stream.bytesWritten + size <= stream.maxSize
      ensures Valid() && buf == stream.buf && maxSize == size && state == stream.state && bytesWritten == 0
    {
      buf, maxSize, state, bytesWritten := stream.buf, size, stream.state, 0;
    }

    /** `pb_write`: all bytes, or none and an error when they do not fit. */
    method Write(src: seq<byte>) returns (st: Status)
      requires Valid()
      modifies this, buf
      ensures Puts(old(Here()), st, Some(src))
      ensures st != Done ==> Here() == old(Here())
    {
      ghost var from := Here();
      if |src| > 0 && buf != null {
        if bytesWritten + |src| > maxSize { return StreamFull; }
        BufWrite(src);
      } else {
        assert src == [] && buf != null ==> from.image == from.image[..from.at] + src + from.image[from.at..];
      }
      bytesWritten := bytesWritten + |src|;
      st := Done;
    }

    /** `buf_write`. */
    method BufWrite(src: seq<byte>)
      requires buf != null && state + |src| <= buf.Length
      modifies this`state, buf
      ensures state == old(state) + |src|
      ensures buf[..] == old(buf[..])[..old(state)] + src + old(buf[..])[old(state) + |src|..]
    {
      var dest := state;
      state := dest + |src|;
      for i := 0 to |src|
        modifies buf
        invariant buf[..dest] == old(buf[..dest])
        invariant buf[dest..dest + i] == src[..i]
        invariant buf[dest + i..] == old(buf[dest + i..])
      {
        ghost var done := buf[dest..dest + i];
        buf[dest + i] := src[i];
        assert buf[dest..dest + i + 1] == done + [src[i]] == src[..i + 1];
        assert old(buf[dest + i..])[1..] == old(buf[dest + i + 1..]);
      }
      assert buf[..] == buf[..dest] + buf[dest..dest + |src|] + buf[dest + |src|..];
      assert old(buf[..])[..dest] == old(buf[..dest]);
      assert old(buf[..])[dest + |src|..] == old(buf[dest + |src|..]);
    }

    /** `pb_write(stream, NULL, size)` on a sizing stream. */
    method CountOnly(ghost b: seq<byte>, size: nat)
      requires Sizing() && size == |b|
      modifies this
      ensures Puts(old(Here()), Done, Some(b))
    {
      bytesWritten := bytesWritten + size;
    }

    /** Writing nothing is done already. */
    lemma {:induction false} Idle()
      requires Valid()
      ensures Puts(Here(), Done, Some([]))
    {
      var m := Here();
      if buf != null { assert m.image == m.image[..m.at] + [] + m.image[m.at..]; }
    }

    /** A call that carries on from where an earlier one wrote `a`. */
    lemma {:induction false} Carry(from: Mark, a: seq<byte>, st: Status, b: Option<seq<byte>>)
      requires buf == null || from.at + |a| <= |from.image|
      requires Fits(from, |a|) && Puts(Advance(from, Sizing(), a), st, b)
      ensures Puts(from, st, if b.Some? then Some(a + b.value) else None)
    {
      if st == Done { AdvanceTwice(from, Sizing(), a, b.value); }
    }
  }
}
