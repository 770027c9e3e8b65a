/** The SEND packet a client uses to publish a message to a channel, and
    its body codec. */
module SendCodec {
  import opened Bytes
  import opened Frames
  import opened Errors
  import opened Encoding
  import opened Decoding

  datatype SendPacket = SendPacket(
    header: Framer,
    clientSeq: uint64,        // the client's sequence number for this send
    clientMsgNo: seq<byte>,   // the client's unique message number
    channelId: seq<byte>,
    channelType: byte,
    payload: seq<byte>)

  /** The body on the wire: the low 32 bits of the client sequence number,
      the client message number only above protocol version 1, the
      channel id, the channel type, and the payload to the end. */
  function SendBody(p: SendPacket, version: byte): (r: seq<byte>)
    ensures |r| == 4 + (if version > 1 then 2 + |p.clientMsgNo| else 0) + 2 + |p.channelId| + 1 + |p.payload|
  {
    BigEndian(ToUint32(p.clientSeq), 4)
    + (if version > 1 then BinaryBytes(p.clientMsgNo) else [])
    + BinaryBytes(p.channelId)
    + [p.channelType]
    + p.payload
  }

  method EncodeSend(p: SendPacket, version: byte) returns (body: seq<byte>)
    ensures body == SendBody(p, version)
  {
    var enc := new Encoder();
    enc.WriteUint32(ToUint32(p.clientSeq));
    assert enc.buf == BigEndian(ToUint32(p.clientSeq), 4);
    if version > 1 {
      enc.WriteString(p.clientMsgNo);
    }
    assert enc.buf == BigEndian(ToUint32(p.clientSeq), 4) + (if version > 1 then BinaryBytes(p.clientMsgNo) else []);
    enc.WriteString(p.channelId);
    enc.WriteUint8(p.channelType);
    enc.WriteBytes(p.payload);
    body := enc.Bytes();
  }

  /** Where the payload starts, as the decoder computes it in 32 bits. */
  function SendPayloadStart(clientMsgNo: seq<byte>, channelId: seq<byte>, version: byte): nat
  {
    4 + (|channelId| + 2) + 1 + (if version > 1 then |clientMsgNo| + 2 else 0)
  }

  /** Decoding a body: the header is kept, each field read failure is
      reported under that field's name, and the payload is everything after
      the channel type. The payload-start check compares against the body
      length truncated to 32 bits, so it can only fail for a body of 2^32
      bytes or more. */
  function ParseSend(h: Framer, data: seq<byte>, version: byte): (r: Result<SendPacket>)
    ensures r.Ok? ==> r.value.header == h
    ensures r.Ok? && version <= 1 ==> r.value.clientMsgNo == []
    ensures r.Err? && |data| < TwoTo32 ==> r.error.FieldError?
  {
    var clientSeq := ReadUint32(data, 0);
    if clientSeq.result.Err? then Err(FieldError(ClientSeq, clientSeq.result.error))
    else
      var clientMsgNo := if version > 1 then ReadBinary(data, clientSeq.pos) else Step(Ok([]), clientSeq.pos);
      if clientMsgNo.result.Err? then Err(FieldError(ClientMsgNo, clientMsgNo.result.error))
      else
        var channelId := ReadBinary(data, clientMsgNo.pos);
        if channelId.result.Err? then Err(FieldError(ChannelId, channelId.result.error))
        else
          var channelType := ReadUint8(data, channelId.pos);
          if channelType.result.Err? then Err(FieldError(ChannelType, channelType.result.error))
          else
            var start := SendPayloadStart(clientMsgNo.result.value, channelId.result.value, version);
            if ToUint32(|data|) < start then Err(PayloadStart)
            else
              Ok(SendPacket(h, clientSeq.result.value, clientMsgNo.result.value, channelId.result.value,
                            channelType.result.value, data[start..]))
  }

  method DecodeSend(h: Framer, data: seq<byte>, version: byte) returns (r: Result<SendPacket>)
    ensures r == ParseSend(h, data, version)
  {
    var dec := new Decoder(data);
    var clientSeq := dec.Uint32();
    if clientSeq.Err? {
      return Err(FieldError(ClientSeq, clientSeq.error));
    }
    var clientMsgNo: seq<byte> := [];
    if version > 1 {
      var s := dec.String();
      if s.Err? {
        return Err(FieldError(ClientMsgNo, s.error));
      }
      clientMsgNo := s.value;
    }
    var channelId := dec.String();
    if channelId.Err? {
      return Err(FieldError(ChannelId, channelId.error));
    }
    var channelType := dec.Uint8();
    if channelType.Err? {
      return Err(FieldError(ChannelType, channelType.error));
    }
    var payloadStart := 4 + (|channelId.value| + 2) + 1;
    if version > 1 {
      payloadStart := payloadStart + |clientMsgNo| + 2;
    }
    if ToUint32(|data|) < payloadStart {
      return Err(PayloadStart);
    }
    return Ok(SendPacket(h, clientSeq.value, clientMsgNo, channelId.value, channelType.value, data[payloadStart..]));
  }

  /** What a packet looks like after a trip over the wire: the sequence
      number keeps its low 32 bits and the message number is dropped at
      protocol version 1. */
  function SendOnWire(h: Framer, p: SendPacket, version: byte): SendPacket
  {
    SendPacket(h, ToUint32(p.clientSeq), if version > 1 then p.clientMsgNo else [],
               p.channelId, p.channelType, p.payload)
  }

  /** Where the channel id starts: after the sequence number and, above
      version 1, the message number. */
  function SendChannelAt(p: SendPacket, version: byte): nat
  {
    4 + (if version > 1 then 2 + |p.clientMsgNo| else 0)
  }

  /** The body as its fields, grouped from the right. */
  lemma SendBodyLayout(p: SendPacket, version: byte)
    ensures SendBody(p, version) ==
      BigEndian(ToUint32(p.clientSeq), 4) + ((if version > 1 then BinaryBytes(p.clientMsgNo) else []) +
        (BinaryBytes(p.channelId) + ([p.channelType] + p.payload)))
  {
    var a, m, c := BigEndian(ToUint32(p.clientSeq), 4), (if version > 1 then BinaryBytes(p.clientMsgNo) else []), BinaryBytes(p.channelId);
    SeqAssoc4(a, m, c, [p.channelType], p.payload);
  }

  /** Each field of an encoded body reads back, and the payload is what
      follows the channel type. */
  lemma SendReads(p: SendPacket, version: byte)
    requires (version > 1 ==> |p.clientMsgNo| < 0x8000) && |p.channelId| < 0x8000
    ensures ReadUint32(SendBody(p, version), 0) == Step(Ok(ToUint32(p.clientSeq)), 4)
    ensures version > 1 ==> ReadBinary(SendBody(p, version), 4) == Step(Ok(p.clientMsgNo), SendChannelAt(p, version))
    ensures SendChannelRead(SendBody(p, version), SendChannelAt(p, version), p)
  {
    var tail := BinaryBytes(p.channelId) + ([p.channelType] + p.payload);
    var data := SendBody(p, version);
    SendBodyLayout(p, version);
    ReadUint32At(data, 0, ToUint32(p.clientSeq), data[4..]);
    if version > 1 {
      ReadBinaryAt(data, 4, p.clientMsgNo, tail);
    }
    var m := SendChannelAt(p, version);
    assert data[m..] == tail;
    SendChannelReads(data, m, p);
  }

  /** The channel id, the channel type and the payload found at `m`. */
  ghost predicate SendChannelRead(data: seq<byte>, m: nat, p: SendPacket)
  {
    && m <= |data|
    && ReadBinary(data, m) == Step(Ok(p.channelId), m + 2 + |p.channelId|)
    && ReadUint8(data, m + 2 + |p.channelId|) == Step(Ok(p.channelType), m + 3 + |p.channelId|)
    && m + 3 + |p.channelId| <= |data|
    && data[m + 3 + |p.channelId|..] == p.payload
  }

  lemma SendChannelReads(data: seq<byte>, m: nat, p: SendPacket)
    requires |p.channelId| < 0x8000
    requires m <= |data| && data[m..] == BinaryBytes(p.channelId) + ([p.channelType] + p.payload)
    ensures SendChannelRead(data, m, p)
  {
    ReadBinaryAt(data, m, p.channelId, [p.channelType] + p.payload);
    ReadUint8At(data, m + 2 + |p.channelId|, p.channelType, p.payload);
  }

  /** Decoding an encoded body gives the packet back, for strings shorter
      than 2^15 bytes (longer ones do not fit the signed length prefix) and
      a body shorter than 2^32 bytes (the payload-start check truncates the
      body length to 32 bits). */
  lemma ParseSendInverts(h: Framer, p: SendPacket, version: byte)
    requires (version > 1 ==> |p.clientMsgNo| < 0x8000) && |p.channelId| < 0x8000
    requires |SendBody(p, version)| < TwoTo32
    ensures ParseSend(h, SendBody(p, version), version) == Ok(SendOnWire(h, p, version))
  {
    SendReads(p, version);
  }

  /** The field a body cut to `k` bytes runs out in. */
  function SendCutField(p: SendPacket, version: byte, k: nat): Field
  {
    var m := SendChannelAt(p, version);
    if k < 4 then ClientSeq
    else if k < m then ClientMsgNo
    else if k < m + 2 + |p.channelId| then ChannelId
    else ChannelType
  }

  /** An encoded body cut short anywhere before the payload does not decode,
      and the error names the field the cut falls in. */
  lemma SendTruncated(h: Framer, p: SendPacket, version: byte, k: nat)
    requires (version > 1 ==> |p.clientMsgNo| < 0x8000) && |p.channelId| < 0x8000
    requires k < |SendBody(p, version)| - |p.payload|
    ensures ParseSend(h, SendBody(p, version)[..k], version).Err?
    ensures ParseSend(h, SendBody(p, version)[..k], version).error.FieldError?
    ensures ParseSend(h, SendBody(p, version)[..k], version).error.field == SendCutField(p, version, k)
  {
    var full := SendBody(p, version);
    var m := SendChannelAt(p, version);
    SendReads(p, version);
    if k >= 4 {
      ReadInt32Prefix(full, 0, k);
      if version > 1 {
        ReadBinaryPrefix(full, 4, k);
      }
      if k >= m {
        ReadBinaryPrefix(full, m, k);
      }
    }
  }
}
