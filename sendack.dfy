/** The SENDACK packet the server returns for each SEND, and its body
    codec. The layout is fixed and does not depend on the protocol
    version. */
module SendackCodec {
  import opened Bytes
  import opened Frames
  import opened Errors
  import opened Encoding
  import opened Decoding

  datatype SendackPacket = SendackPacket(
    header: Framer,
    messageId: int64,         // the server's globally unique message id
    messageSeq: uint32,       // the per-user message sequence number
    clientSeq: uint64,        // the client's sequence number, echoed back
    clientMsgNo: seq<byte>,   // never on the wire
    reasonCode: byte)

  /** The body: the low 32 bits of the client sequence number, the message
      id, the message sequence number and the reason code. */
  function SendackBody(p: SendackPacket): (r: seq<byte>)
    ensures |r| == 17
  {
    BigEndian(ToUint32(p.clientSeq), 4) + (BigEndian(p.messageId, 8) + (BigEndian(p.messageSeq, 4) + [p.reasonCode]))
  }

  method EncodeSendack(p: SendackPacket, version: byte) returns (body: seq<byte>)
    ensures body == SendackBody(p)
  {
    var a, b, c := BigEndian(ToUint32(p.clientSeq), 4), BigEndian(p.messageId, 8), BigEndian(p.messageSeq, 4);
    var enc := new Encoder();
    enc.WriteUint32(ToUint32(p.clientSeq));
    assert enc.buf == a;
    enc.WriteInt64(p.messageId);
    enc.WriteUint32(p.messageSeq);
    enc.WriteUint8(p.reasonCode);
    SeqAssoc3(a + b, c, [p.reasonCode]);
    SeqAssoc3(a, b, c + [p.reasonCode]);
    body := enc.Bytes();
  }

  /** The field a body of `n < 17` bytes runs out in. The reason code's
      read error carries the label of the channel type. */
  function SendackCutField(n: nat): Field
  {
    if n < 4 then ClientSeq
    else if n < 12 then MessageId
    else if n < 16 then MessageSeq
    else ChannelType
  }

  /** Decoding a body: the first 17 bytes are read, the rest is ignored,
      any reason byte is accepted and the message number is left empty. */
  function ParseSendack(h: Framer, data: seq<byte>, version: byte): (r: Result<SendackPacket>)
    ensures r.Ok? <==> 17 <= |data|
    ensures r.Ok? ==> r.value.header == h && r.value.clientMsgNo == [] && r.value.reasonCode == data[16]
    ensures r.Err? ==> r.error.FieldError? && r.error.field == SendackCutField(|data|)
  {
    var clientSeq := ReadUint32(data, 0);
    if clientSeq.result.Err? then Err(FieldError(ClientSeq, clientSeq.result.error))
    else
      var messageId := ReadInt64(data, clientSeq.pos);
      if messageId.result.Err? then Err(FieldError(MessageId, messageId.result.error))
      else
        var messageSeq := ReadUint32(data, messageId.pos);
        if messageSeq.result.Err? then Err(FieldError(MessageSeq, messageSeq.result.error))
        else
          var reasonCode := ReadUint8(data, messageSeq.pos);
          if reasonCode.result.Err? then Err(FieldError(ChannelType, reasonCode.result.error))
          else
            Ok(SendackPacket(h, messageId.result.value, messageSeq.result.value, clientSeq.result.value, [],
                             reasonCode.result.value))
  }

  method DecodeSendack(h: Framer, data: seq<byte>, version: byte) returns (r: Result<SendackPacket>)
    ensures r == ParseSendack(h, data, version)
  {
    var dec := new Decoder(data);
    var clientSeq := dec.Uint32();
    if clientSeq.Err? {
      return Err(FieldError(ClientSeq, clientSeq.error));
    }
    var messageId := dec.Int64();
    if messageId.Err? {
      return Err(FieldError(MessageId, messageId.error));
    }
    var messageSeq := dec.Uint32();
    if messageSeq.Err? {
      return Err(FieldError(MessageSeq, messageSeq.error));
    }
    var reasonCode := dec.Uint8();
    if reasonCode.Err? {
      return Err(FieldError(ChannelType, reasonCode.error));
    }
    return Ok(SendackPacket(h, messageId.value, messageSeq.value, clientSeq.value, [], reasonCode.value));
  }

  /** Decoding an encoded body, whatever follows it, gives the packet back
      with the frame's header, the sequence number cut to 32 bits and no
      message number. */
  lemma ParseSendackInverts(h: Framer, p: SendackPacket, version: byte, extra: seq<byte>)
    ensures ParseSendack(h, SendackBody(p) + extra, version) ==
      Ok(p.(header := h, clientSeq := ToUint32(p.clientSeq), clientMsgNo := []))
  {
    var a, b, c, d := BigEndian(ToUint32(p.clientSeq), 4), BigEndian(p.messageId, 8), BigEndian(p.messageSeq, 4), [p.reasonCode];
    var data := SendackBody(p) + extra;
    SeqAssoc3(a, b + (c + d), extra);
    SeqAssoc3(b, c + d, extra);
    SeqAssoc3(c, d, extra);
    ReadUint32At(data, 0, ToUint32(p.clientSeq), b + (c + (d + extra)));
    ReadInt64At(data, 4, p.messageId, c + (d + extra));
    ReadUint32At(data, 12, p.messageSeq, d + extra);
    ReadUint8At(data, 16, p.reasonCode, extra);
    ParseSendackReads(h, data, version, p.(header := h, clientSeq := ToUint32(p.clientSeq), clientMsgNo := []));
  }

  /** ParseSendack on any input whose fields read as those of `p`. */
  lemma ParseSendackReads(h: Framer, data: seq<byte>, version: byte, p: SendackPacket)
    requires p.header == h && p.clientMsgNo == [] && p.clientSeq < TwoTo32
    requires ReadUint32(data, 0) == Step(Ok(p.clientSeq), 4)
    requires ReadInt64(data, 4) == Step(Ok(p.messageId), 12)
    requires ReadUint32(data, 12) == Step(Ok(p.messageSeq), 16)
    requires ReadUint8(data, 16) == Step(Ok(p.reasonCode), 17)
    ensures ParseSendack(h, data, version) == Ok(p)
  {
  }

  /** Only the first 17 bytes of a body matter. */
  lemma SendackPrefix(h: Framer, data: seq<byte>, version: byte, k: nat)
    requires 17 <= k <= |data|
    ensures ParseSendack(h, data[..k], version) == ParseSendack(h, data, version)
  {
    ReadInt32Prefix(data, 0, k);
    ReadInt64Prefix(data, 4, k);
    ReadInt32Prefix(data, 12, k);
    ReadUint8Prefix(data, 16, k);
  }
}
