/** The CONNACK packet the server answers a CONNECT with, and its body
    codec. The layout does not depend on the protocol version. */
module ConnackCodec {
  import opened Bytes
  import opened Frames
  import opened Errors
  import opened Encoding
  import opened Decoding

  datatype ConnackPacket = ConnackPacket(
    header: Framer,
    timeDiff: int64,          // client clock minus server clock, in milliseconds
    reasonCode: byte)

  /** The body: the time difference as eight big-endian bytes, then the
      reason code. */
  function ConnackBody(p: ConnackPacket): (r: seq<byte>)
    ensures |r| == 9
  {
    BigEndian(p.timeDiff, 8) + [p.reasonCode]
  }

  method EncodeConnack(p: ConnackPacket, version: byte) returns (body: seq<byte>)
    ensures body == ConnackBody(p)
  {
    var enc := new Encoder();
    enc.WriteInt64(p.timeDiff);
    enc.WriteByte(p.reasonCode);
    body := enc.Bytes();
  }

  /** Decoding a body: the first 9 bytes are read, the rest is ignored, any
      reason byte is accepted, and a read failure names its field. */
  function ParseConnack(h: Framer, data: seq<byte>, version: byte): (r: Result<ConnackPacket>)
    ensures r.Ok? <==> 9 <= |data|
    ensures r.Ok? ==> r.value.header == h && r.value.reasonCode == data[8]
    ensures r.Err? ==> r.error.FieldError? && r.error.field == (if |data| < 8 then TimeDiff else ReasonCode)
  {
    var timeDiff := ReadInt64(data, 0);
    if timeDiff.result.Err? then Err(FieldError(TimeDiff, timeDiff.result.error))
    else
      var reasonCode := ReadUint8(data, timeDiff.pos);
      if reasonCode.result.Err? then Err(FieldError(ReasonCode, reasonCode.result.error))
      else Ok(ConnackPacket(h, timeDiff.result.value, reasonCode.result.value))
  }

  method DecodeConnack(h: Framer, data: seq<byte>, version: byte) returns (r: Result<ConnackPacket>)
    ensures r == ParseConnack(h, data, version)
  {
    var dec := new Decoder(data);
    var timeDiff := dec.Int64();
    if timeDiff.Err? {
      return Err(FieldError(TimeDiff, timeDiff.error));
    }
    var reasonCode := dec.Uint8();
    if reasonCode.Err? {
      return Err(FieldError(ReasonCode, reasonCode.error));
    }
    return Ok(ConnackPacket(h, timeDiff.value, reasonCode.value));
  }

  /** Decoding an encoded body, whatever follows it, gives the packet back
      with the frame's header. */
  lemma ParseConnackInverts(h: Framer, p: ConnackPacket, version: byte, extra: seq<byte>)
    ensures ParseConnack(h, ConnackBody(p) + extra, version) == Ok(p.(header := h))
  {
    var data := ConnackBody(p) + extra;
    SeqAssoc3(BigEndian(p.timeDiff, 8), [p.reasonCode], extra);
    ReadInt64At(data, 0, p.timeDiff, [p.reasonCode] + extra);
    ReadUint8At(data, 8, p.reasonCode, extra);
  }

  /** The successful reply of the packet tests: a time difference of 12345
      and the success reason code survive a round trip. */
  lemma ConnackExample(h: Framer)
    ensures ParseConnack(h, ConnackBody(ConnackPacket(h, 12345, ReasonSuccess)), 1) ==
      Ok(ConnackPacket(h, 12345, ReasonSuccess))
  {
    var p := ConnackPacket(h, 12345, ReasonSuccess);
    ParseConnackInverts(h, p, 1, []);
    assert ConnackBody(p) + [] == ConnackBody(p);
  }
}
