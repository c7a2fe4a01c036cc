/** Sequences of length-delimited messages. */
module Framing {
  import opened Bytes
  import opened Schema
  import opened Varint
  import opened EncodeSpec
  import opened DecodeSpec
  import opened RoundTrip
  import opened Proto3

  function EncodeFrames(fields: seq<Field>, ms: seq<seq<Slot>>): Option<seq<byte>> {
    if ms == [] then Some([]) else Append(EncodeDelimited(fields, ms[0]), EncodeFrames(fields, ms[1..]))
  }

  /** Calls of `pb_decode_delimited` on one stream, one into each of the structs `dests`. */
  function DecodeFrames(fields: seq<Field>, s: seq<byte>, dests: seq<seq<Slot>>): Parse<seq<seq<Slot>>>
    decreases dests
  {
    if dests == [] then Good([], s)
    else
      match DecodeDelimited(fields, s, dests[0])
      case Bad => Bad
      case Good(m, rest) =>
        match DecodeFrames(fields, rest, dests[1..])
        case Bad => Bad
        case Good(ms, rest') => Good([m] + ms, rest')
  }

  /** A message that fits a frame. */
  ghost predicate Frameable(fields: seq<Field>, m: seq<Slot>) {
    WellFormed(fields, m) && EncodeMsg(fields, m).Some? && |EncodeMsg(fields, m).value| < UINT32
  }

  /** One call consumes exactly its own frame. */
  lemma {:induction false} FrameRoundTrip(fields: seq<Field>, m: seq<Slot>, was: seq<Slot>, rest: seq<byte>)
    requires ValidSchema(fields) && ElisionSafe(fields) && Frameable(fields, m) && Typed(fields, was)
    ensures EncodeDelimited(fields, m).Some?
    ensures var r := DecodeDelimited(fields, EncodeDelimited(fields, m).value + rest, was);
            r.Good? && r.rest == rest && SameMsg(fields, m, r.value)
  {
    hide EncodeMsg, Decode, TakeDelimited, EncVarint, SameMsg, ConformsMsg, PayloadsFit;
    var b := EncodeMsg(fields, m).value;
    TakeDelimitedRoundTrip(b, rest);
    PayloadsWithin(fields, m, UINT32);
    RoundTripSafe(fields, m, was);
  }

  /** Framing: decoding the concatenation of the frames of a list of messages, once per
      message, recovers the list in order and leaves exactly what follows the last frame,
      whatever the destinations hold. */
  lemma {:induction false} FramesRoundTrip(fields: seq<Field>, ms: seq<seq<Slot>>, dests: seq<seq<Slot>>,
                                           rest: seq<byte>)
    requires ValidSchema(fields) && ElisionSafe(fields) && |dests| == |ms|
    requires forall k :: 0 <= k < |ms| ==> Frameable(fields, ms[k]) && Typed(fields, dests[k])
    ensures EncodeFrames(fields, ms).Some?
    ensures var r := DecodeFrames(fields, EncodeFrames(fields, ms).value + rest, dests);
            r.Good? && r.rest == rest && |r.value| == |ms|
            && forall k :: 0 <= k < |ms| ==> SameMsg(fields, ms[k], r.value[k])
    decreases ms
  {
    hide EncodeDelimited, DecodeDelimited, SameMsg, Frameable, ValidSchema, ElisionSafe, ConformsMsg;
    if ms == [] {
      assert [] + rest == rest;
    } else {
      FramesRoundTrip(fields, ms[1..], dests[1..], rest);
      var tail := EncodeFrames(fields, ms[1..]).value + rest;
      FrameRoundTrip(fields, ms[0], dests[0], tail);
      assert EncodeFrames(fields, ms).value + rest == EncodeDelimited(fields, ms[0]).value + tail;
    }
  }
}
