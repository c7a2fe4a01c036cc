/** A caller of the codec that goes about it as `GDTCCTNanopbHelpers.m` does: it measures a message,
    encodes it into a buffer of exactly that size, and decodes responses with a fallback. */
module Transport {
  import opened Bytes
  import opened Schema
  import opened EncodeSpec
  import opened DecodeSpec
  import Preservation
  import opened Proto3
  import opened Streams
  import opened Encoder
  import opened Decoder

  /** The two passes of `GDTCCTEncodeBatchedLogRequest` over any table of static fields. The errors of
      both passes are only logged; on a message that can be encoded neither pass fails, the buffer is
      filled exactly, and what it holds decodes into any struct as the message again. */
  method EncodeRequest(fields: seq<Field>, request: seq<Slot>) returns (data: seq<byte>)
    requires ValidSchema(fields) && Typed(fields, request) && Sized(fields, request)
    ensures EncodeMsg(fields, request).Some? ==> data == EncodeMsg(fields, request).value
    ensures WellFormed(fields, request) && ElisionSafe(fields) && PayloadsFit(fields, request, UINT32) ==>
              forall was: seq<Slot> :: Typed(fields, was) ==>
                var r := Decode(fields, data, was);
                r.Good? && r.rest == [] && SameMsg(fields, request, r.value)
  {
    hide EncodeMsg, Decode, ConformsMsg, ValidSchema, ElisionSafe, SameMsg, Sized, PayloadsFit;
    var sizestream := new OStream.SizingStream();
    var status := EncodeMessage(sizestream, fields, request);
    var bufferSize := sizestream.bytesWritten;
    var buffer := new byte[bufferSize](_ => 0);
    var ostream := new OStream.FromBuffer(buffer);
    status := EncodeMessage(ostream, fields, request);
    data := buffer[..];
    if WellFormed(fields, request) { EncodeMsgSome(fields, request); }
    assert EncodeMsg(fields, request).Some? ==> data == EncodeMsg(fields, request).value;
    if WellFormed(fields, request) && ElisionSafe(fields) && PayloadsFit(fields, request, UINT32) {
      forall was: seq<Slot> | Typed(fields, was)
        ensures Decode(fields, data, was).Good? && Decode(fields, data, was).rest == []
        ensures SameMsg(fields, request, Decode(fields, data, was).value)
      {
        RoundTripSafe(fields, request, was);
      }
    }
  }

  /** `GDTCCTDecodeLogResponse`: the decoded response, or the initial one. Whatever arrives, the
      result is well-formed, so it can be encoded again. */
  method DecodeResponse(fields: seq<Field>, data: seq<byte>) returns (response: seq<Slot>, ok: bool)
    requires ValidSchema(fields)
    ensures ok <==> Decode(fields, data, InitDefault(fields)).Good?
    ensures response == if ok then Decode(fields, data, InitDefault(fields)).value else InitDefault(fields)
    ensures WellFormed(fields, response) && EncodeMsg(fields, response).Some?
  {
    hide EncodeMsg, Decode, ConformsMsg, ValidSchema, InitDefault, Defaults;
    InitDefaultWellFormed(fields);
    WellFormedIsTyped(fields, InitDefault(fields));
    DefaultsConform(fields, InitDefault(fields), true);
    var dest := new Struct(InitDefault(fields));
    var istream := new IStream.FromBuffer(data);
    ok := DecodeMessage(istream, fields, dest);
    response := if ok then dest.slots else InitDefault(fields);
    if ok { Preservation.DecodedEncodes(fields, data, InitDefault(fields)); }
    EncodeMsgSome(fields, response);
  }
}
