/** The RECVACK packet a client returns for each RECV, and its body codec.
    The layout does not depend on the protocol version. */
module RecvackCodec {
  import opened Bytes
  import opened Frames
  import opened Errors
  import opened Encoding
  import opened Decoding

  datatype RecvackPacket = RecvackPacket(
    header: Framer,
    messageId: int64,         // the id of the message being acknowledged
    messageSeq: uint32)

  /** The body: the message id and the message sequence number, both
      big-endian. */
  function RecvackBody(p: RecvackPacket): (r: seq<byte>)
    ensures |r| == 12
  {
    BigEndian(p.messageId, 8) + BigEndian(p.messageSeq, 4)
  }

  method EncodeRecvack(p: RecvackPacket, version: byte) returns (body: seq<byte>)
    ensures body == RecvackBody(p)
  {
    var enc := new Encoder();
    enc.WriteInt64(p.messageId);
    enc.WriteUint32(p.messageSeq);
    body := enc.Bytes();
  }

  /** Decoding a body: the first 12 bytes are read, the rest is ignored,
      and a read failure names its field. */
  function ParseRecvack(h: Framer, data: seq<byte>, version: byte): (r: Result<RecvackPacket>)
    ensures r.Ok? <==> 12 <= |data|
    ensures r.Ok? ==> r.value.header == h
    ensures r.Err? ==> r.error.FieldError? && r.error.field == (if |data| < 8 then MessageId else MessageSeq)
  {
    var messageId := ReadInt64(data, 0);
    if messageId.result.Err? then Err(FieldError(MessageId, messageId.result.error))
    else
      var messageSeq := ReadUint32(data, messageId.pos);
      if messageSeq.result.Err? then Err(FieldError(MessageSeq, messageSeq.result.error))
      else Ok(RecvackPacket(h, messageId.result.value, messageSeq.result.value))
  }

  method DecodeRecvack(h: Framer, data: seq<byte>, version: byte) returns (r: Result<RecvackPacket>)
    ensures r == ParseRecvack(h, data, version)
  {
    var dec := new Decoder(data);
    var messageId := dec.Int64();
    if messageId.Err? {
      return Err(FieldError(MessageId, messageId.error));
    }
    var messageSeq := dec.Uint32();
    if messageSeq.Err? {
      return Err(FieldError(MessageSeq, messageSeq.error));
    }
    return Ok(RecvackPacket(h, messageId.value, messageSeq.value));
  }

  /** Decoding an encoded body, whatever follows it, gives the packet back
      with the frame's header. */
  lemma ParseRecvackInverts(h: Framer, p: RecvackPacket, version: byte, extra: seq<byte>)
    ensures ParseRecvack(h, RecvackBody(p) + extra, version) == Ok(p.(header := h))
  {
    var data := RecvackBody(p) + extra;
    SeqAssoc3(BigEndian(p.messageId, 8), BigEndian(p.messageSeq, 4), extra);
    ReadInt64At(data, 0, p.messageId, BigEndian(p.messageSeq, 4) + extra);
    ReadUint32At(data, 8, p.messageSeq, extra);
  }
}
