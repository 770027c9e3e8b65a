/** The RECV packet the server delivers to a client, and its body codec. */
module RecvCodec {
  import opened Bytes
  import opened Frames
  import opened Errors
  import opened Encoding
  import opened Decoding

  datatype RecvPacket = RecvPacket(
    header: Framer,
    messageId: int64,         // the server's globally unique message id
    messageSeq: uint32,       // the per-user message sequence number
    clientMsgNo: seq<byte>,
    timestamp: int32,         // server time in seconds
    fromUid: seq<byte>,
    channelId: seq<byte>,
    channelType: byte,
    payload: seq<byte>)

  /** The body on the wire: message id, message sequence number, the client
      message number only above protocol version 1, timestamp, channel id,
      channel type, sender, and the payload to the end. */
  function RecvBody(p: RecvPacket, version: byte): (r: seq<byte>)
    ensures |r| == 21 + |p.channelId| + |p.fromUid| + |p.payload| + (if version > 1 then 2 + |p.clientMsgNo| else 0)
  {
    BigEndian(p.messageId, 8) + (BigEndian(p.messageSeq, 4) + (RecvMsgNoBytes(p, version) + RecvTail(p)))
  }

  /** The client message number, present only above version 1. */
  function RecvMsgNoBytes(p: RecvPacket, version: byte): seq<byte>
  {
    if version > 1 then BinaryBytes(p.clientMsgNo) else []
  }

  /** The timestamp, channel id, channel type, sender and payload. */
  function RecvTail(p: RecvPacket): seq<byte>
  {
    BigEndian(p.timestamp, 4) + (BinaryBytes(p.channelId) + ([p.channelType] + (BinaryBytes(p.fromUid) + p.payload)))
  }

  method EncodeRecv(p: RecvPacket, version: byte) returns (body: seq<byte>)
    ensures body == RecvBody(p, version)
  {
    var enc := new Encoder();
    enc.WriteInt64(p.messageId);
    enc.WriteUint32(p.messageSeq);
    if version > 1 {
      enc.WriteString(p.clientMsgNo);
    }
    ghost var head := enc.buf;
    assert head == BigEndian(p.messageId, 8) + BigEndian(p.messageSeq, 4) + RecvMsgNoBytes(p, version);
    enc.WriteInt32(p.timestamp);
    enc.WriteString(p.channelId);
    enc.WriteUint8(p.channelType);
    ghost var mid := enc.buf;
    enc.WriteString(p.fromUid);
    enc.WriteBytes(p.payload);
    SeqAssoc3(mid, BinaryBytes(p.fromUid), p.payload);
    SeqAssoc4(head, BigEndian(p.timestamp, 4), BinaryBytes(p.channelId), [p.channelType], BinaryBytes(p.fromUid) + p.payload);
    SeqAssoc3(BigEndian(p.messageId, 8) + BigEndian(p.messageSeq, 4), RecvMsgNoBytes(p, version), RecvTail(p));
    SeqAssoc3(BigEndian(p.messageId, 8), BigEndian(p.messageSeq, 4), RecvMsgNoBytes(p, version) + RecvTail(p));
    body := enc.Bytes();
  }

  /** Where the payload starts, as the decoder computes it. */
  function RecvPayloadStart(clientMsgNo: seq<byte>, channelId: seq<byte>, fromUid: seq<byte>, version: byte): nat
  {
    8 + 4 + 4 + (|channelId| + 2) + 1 + (|fromUid| + 2) + (if version > 1 then |clientMsgNo| + 2 else 0)
  }

  /** Decoding a body: the header is kept, each field read failure is
      reported under that field's name, and the payload is everything after
      the sender. The payload-start check compares against the body length
      truncated to 32 bits, so it can only fail for a body of 2^32 bytes or
      more. */
  function ParseRecv(h: Framer, data: seq<byte>, version: byte): (r: Result<RecvPacket>)
    ensures r.Ok? ==> r.value.header == h
    ensures r.Ok? && version <= 1 ==> r.value.clientMsgNo == []
    ensures r.Err? && |data| < TwoTo32 ==> r.error.FieldError?
  {
    var messageId := ReadInt64(data, 0);
    if messageId.result.Err? then Err(FieldError(MessageId, messageId.result.error))
    else
      var messageSeq := ReadUint32(data, messageId.pos);
      if messageSeq.result.Err? then Err(FieldError(MessageSeq, messageSeq.result.error))
      else
        var clientMsgNo := if version > 1 then ReadBinary(data, messageSeq.pos) else Step(Ok([]), messageSeq.pos);
        if clientMsgNo.result.Err? then Err(FieldError(ClientMsgNo, clientMsgNo.result.error))
        else
          ParseRecvFields(h, data, version, messageId.result.value, messageSeq.result.value,
                          clientMsgNo.result.value, clientMsgNo.pos)
  }

  /** The second half of decoding a body: the fields from the timestamp at
      `pos` on, given the ones read before it. */
  function ParseRecvFields(h: Framer, data: seq<byte>, version: byte, messageId: int64, messageSeq: uint32,
                           clientMsgNo: seq<byte>, pos: nat): (r: Result<RecvPacket>)
    requires pos <= |data|
    ensures r.Ok? ==> r.value.header == h && r.value.clientMsgNo == clientMsgNo
    ensures r.Err? && |data| < TwoTo32 && pos == 12 + (if version > 1 then 2 + |clientMsgNo| else 0) ==>
      r.error.FieldError?
  {
    var timestamp := ReadInt32(data, pos);
    if timestamp.result.Err? then Err(FieldError(Timestamp, timestamp.result.error))
    else
      var channelId := ReadBinary(data, timestamp.pos);
      if channelId.result.Err? then Err(FieldError(ChannelId, channelId.result.error))
      else
        var channelType := ReadUint8(data, channelId.pos);
        if channelType.result.Err? then Err(FieldError(ChannelType, channelType.result.error))
        else
          var fromUid := ReadBinary(data, channelType.pos);
          if fromUid.result.Err? then Err(FieldError(FromUid, fromUid.result.error))
          else
            var start := RecvPayloadStart(clientMsgNo, channelId.result.value, fromUid.result.value, version);
            if ToUint32(|data|) < start then Err(PayloadStart)
            else
              Ok(RecvPacket(h, messageId, messageSeq, clientMsgNo, timestamp.result.value, fromUid.result.value,
                            channelId.result.value, channelType.result.value, data[start..]))
  }

  method DecodeRecv(h: Framer, data: seq<byte>, version: byte) returns (r: Result<RecvPacket>)
    ensures r == ParseRecv(h, data, version)
  {
    var dec := new Decoder(data);
    var messageId := dec.Int64();
    if messageId.Err? {
      return Err(FieldError(MessageId, messageId.error));
    }
    var messageSeq := dec.Uint32();
    if messageSeq.Err? {
      return Err(FieldError(MessageSeq, messageSeq.error));
    }
    var clientMsgNo: seq<byte> := [];
    if version > 1 {
      var s := dec.String();
      if s.Err? {
        return Err(FieldError(ClientMsgNo, s.error));
      }
      clientMsgNo := s.value;
    }
    var timestamp := dec.Int32();
    if timestamp.Err? {
      return Err(FieldError(Timestamp, timestamp.error));
    }
    var channelId := dec.String();
    if channelId.Err? {
      return Err(FieldError(ChannelId, channelId.error));
    }
    var channelType := dec.Uint8();
    if channelType.Err? {
      return Err(FieldError(ChannelType, channelType.error));
    }
    var fromUid := dec.String();
    if fromUid.Err? {
      return Err(FieldError(FromUid, fromUid.error));
    }
    var payloadStart := 8 + 4 + 4 + (|channelId.value| + 2) + 1 + (|fromUid.value| + 2);
    if version > 1 {
      payloadStart := payloadStart + |clientMsgNo| + 2;
    }
    assert payloadStart == RecvPayloadStart(clientMsgNo, channelId.value, fromUid.value, version);
    if ToUint32(|data|) < payloadStart {
      return Err(PayloadStart);
    }
    return Ok(RecvPacket(h, messageId.value, messageSeq.value, clientMsgNo, timestamp.value, fromUid.value,
                         channelId.value, channelType.value, data[payloadStart..]));
  }

  /** What a packet looks like after a trip over the wire: the header is the
      frame's and the message number is dropped at protocol version 1. */
  function RecvOnWire(h: Framer, p: RecvPacket, version: byte): RecvPacket
  {
    p.(header := h, clientMsgNo := if version > 1 then p.clientMsgNo else [])
  }

  /** Where the timestamp starts: after the message id, the sequence number
      and, above version 1, the message number. */
  function RecvTimestampAt(p: RecvPacket, version: byte): nat
  {
    12 + (if version > 1 then 2 + |p.clientMsgNo| else 0)
  }

  /** Each field of an encoded body up to the message number reads back,
      and the rest of the body follows it. */
  lemma RecvHeadReads(p: RecvPacket, version: byte)
    requires (version > 1 ==> |p.clientMsgNo| < 0x8000)
    ensures ReadInt64(RecvBody(p, version), 0) == Step(Ok(p.messageId), 8)
    ensures ReadUint32(RecvBody(p, version), 8) == Step(Ok(p.messageSeq), 12)
    ensures version > 1 ==> ReadBinary(RecvBody(p, version), 12) == Step(Ok(p.clientMsgNo), RecvTimestampAt(p, version))
    ensures RecvTimestampAt(p, version) <= |RecvBody(p, version)|
    ensures RecvBody(p, version)[RecvTimestampAt(p, version)..] == RecvTail(p)
  {
    var data := RecvBody(p, version);
    RecvIdReads(data, p.messageId, p.messageSeq, RecvMsgNoBytes(p, version) + RecvTail(p));
    if version > 1 {
      ReadBinaryAt(data, 12, p.clientMsgNo, RecvTail(p));
    }
  }

  /** The message id and sequence number at the front of a body read back. */
  lemma RecvIdReads(data: seq<byte>, messageId: int64, messageSeq: uint32, rest: seq<byte>)
    requires data == BigEndian(messageId, 8) + (BigEndian(messageSeq, 4) + rest)
    ensures ReadInt64(data, 0) == Step(Ok(messageId), 8)
    ensures ReadUint32(data, 8) == Step(Ok(messageSeq), 12)
    ensures data[12..] == rest
  {
    ReadInt64At(data, 0, messageId, BigEndian(messageSeq, 4) + rest);
    ReadUint32At(data, 8, messageSeq, rest);
  }

  /** The timestamp and the channel id after the message number read back. */
  lemma RecvChannelReads(data: seq<byte>, m: nat, p: RecvPacket)
    requires |p.channelId| < 0x8000
    requires m <= |data| && data[m..] == RecvTail(p)
    ensures ReadInt32(data, m) == Step(Ok(p.timestamp), m + 4)
    ensures ReadBinary(data, m + 4) == Step(Ok(p.channelId), m + 6 + |p.channelId|)
    ensures data[m + 6 + |p.channelId|..] == [p.channelType] + (BinaryBytes(p.fromUid) + p.payload)
  {
    var afterChannel := [p.channelType] + (BinaryBytes(p.fromUid) + p.payload);
    ReadInt32At(data, m, p.timestamp, BinaryBytes(p.channelId) + afterChannel);
    ReadBinaryAt(data, m + 4, p.channelId, afterChannel);
  }

  /** The channel type and the sender after the channel id read back, and
      the payload is what follows them. */
  lemma RecvSenderReads(data: seq<byte>, c: nat, p: RecvPacket)
    requires |p.fromUid| < 0x8000
    requires c <= |data| && data[c..] == [p.channelType] + (BinaryBytes(p.fromUid) + p.payload)
    ensures ReadUint8(data, c) == Step(Ok(p.channelType), c + 1)
    ensures ReadBinary(data, c + 1) == Step(Ok(p.fromUid), c + 3 + |p.fromUid|)
    ensures data[c + 3 + |p.fromUid|..] == p.payload
  {
    ReadUint8At(data, c, p.channelType, BinaryBytes(p.fromUid) + p.payload);
    ReadBinaryAt(data, c + 1, p.fromUid, p.payload);
  }

  /** The fields from the timestamp at `m` on read as those of `p`, and the
      payload is what follows the sender. */
  ghost predicate RecvFieldsRead(data: seq<byte>, m: nat, p: RecvPacket)
  {
    var c := m + 6 + |p.channelId|;
    && m + 4 <= |data|
    && ReadInt32(data, m) == Step(Ok(p.timestamp), m + 4)
    && ReadBinary(data, m + 4) == Step(Ok(p.channelId), c)
    && c + 1 <= |data|
    && ReadUint8(data, c) == Step(Ok(p.channelType), c + 1)
    && ReadBinary(data, c + 1) == Step(Ok(p.fromUid), c + 3 + |p.fromUid|)
    && c + 3 + |p.fromUid| <= |data|
    && data[c + 3 + |p.fromUid|..] == p.payload
  }

  /** Every field after the message number reads back, and the payload is
      what follows the sender. */
  lemma RecvTailReads(data: seq<byte>, m: nat, p: RecvPacket)
    requires |p.channelId| < 0x8000 && |p.fromUid| < 0x8000
    requires m <= |data| && data[m..] == RecvTail(p)
    ensures RecvFieldsRead(data, m, p)
  {
    var c := m + 6 + |p.channelId|;
    RecvChannelReads(data, m, p);
    assert c <= |data|;
    RecvSenderReads(data, c, p);
  }

  /** Every field of an encoded body reads back, and the payload is what
      follows the sender. */
  lemma RecvReads(p: RecvPacket, version: byte)
    requires (version > 1 ==> |p.clientMsgNo| < 0x8000) && |p.channelId| < 0x8000 && |p.fromUid| < 0x8000
    ensures ReadInt64(RecvBody(p, version), 0) == Step(Ok(p.messageId), 8)
    ensures ReadUint32(RecvBody(p, version), 8) == Step(Ok(p.messageSeq), 12)
    ensures version > 1 ==> ReadBinary(RecvBody(p, version), 12) == Step(Ok(p.clientMsgNo), RecvTimestampAt(p, version))
    ensures RecvFieldsRead(RecvBody(p, version), RecvTimestampAt(p, version), p)
  {
    RecvHeadReads(p, version);
    RecvTailReads(RecvBody(p, version), RecvTimestampAt(p, version), p);
  }

  /** Decoding an encoded body gives the packet back, for strings shorter
      than 2^15 bytes and a body shorter than 2^32 bytes. */
  lemma ParseRecvInverts(h: Framer, p: RecvPacket, version: byte)
    requires (version > 1 ==> |p.clientMsgNo| < 0x8000) && |p.channelId| < 0x8000 && |p.fromUid| < 0x8000
    requires |RecvBody(p, version)| < TwoTo32
    ensures ParseRecv(h, RecvBody(p, version), version) == Ok(RecvOnWire(h, p, version))
  {
    RecvReads(p, version);
    ParseRecvReads(h, RecvBody(p, version), version, p);
  }

  /** ParseRecv on any input whose fields read as those of `p`. */
  lemma ParseRecvReads(h: Framer, data: seq<byte>, version: byte, p: RecvPacket)
    requires ReadInt64(data, 0) == Step(Ok(p.messageId), 8)
    requires ReadUint32(data, 8) == Step(Ok(p.messageSeq), 12)
    requires version > 1 ==> ReadBinary(data, 12) == Step(Ok(p.clientMsgNo), RecvTimestampAt(p, version))
    requires RecvFieldsRead(data, RecvTimestampAt(p, version), p)
    requires |data| < TwoTo32
    ensures ParseRecv(h, data, version) == Ok(RecvOnWire(h, p, version))
  {
    ParseRecvFieldsReads(h, data, version, p);
  }

  lemma ParseRecvFieldsReads(h: Framer, data: seq<byte>, version: byte, p: RecvPacket)
    requires RecvFieldsRead(data, RecvTimestampAt(p, version), p)
    requires |data| < TwoTo32
    ensures ParseRecvFields(h, data, version, p.messageId, p.messageSeq, RecvOnWire(h, p, version).clientMsgNo,
                            RecvTimestampAt(p, version)) == Ok(RecvOnWire(h, p, version))
  {
    var m := RecvTimestampAt(p, version);
    var c := m + 6 + |p.channelId|;
    var msgNo := RecvOnWire(h, p, version).clientMsgNo;
    assert ToUint32(|data|) == |data|;
    assert RecvPayloadStart(msgNo, p.channelId, p.fromUid, version) == c + 3 + |p.fromUid|;
  }

  /** The field a body cut to `k` bytes runs out in. */
  function RecvCutField(p: RecvPacket, version: byte, k: nat): Field
  {
    var m := RecvTimestampAt(p, version);
    if k < 8 then MessageId
    else if k < 12 then MessageSeq
    else if k < m then ClientMsgNo
    else RecvFieldsCutField(p, m, k)
  }

  /** The field a cut at `k` runs out in, when the timestamp is at `m`. */
  function RecvFieldsCutField(p: RecvPacket, m: nat, k: nat): Field
  {
    var c := m + 6 + |p.channelId|;
    if k < m + 4 then Timestamp
    else if k < c then ChannelId
    else if k < c + 1 then ChannelType
    else FromUid
  }

  /** An encoded body cut short anywhere before the payload does not decode,
      and the error names the field the cut falls in. */
  lemma RecvTruncated(h: Framer, p: RecvPacket, version: byte, k: nat)
    requires (version > 1 ==> |p.clientMsgNo| < 0x8000) && |p.channelId| < 0x8000 && |p.fromUid| < 0x8000
    requires k < |RecvBody(p, version)| - |p.payload|
    ensures ParseRecv(h, RecvBody(p, version)[..k], version).Err?
    ensures ParseRecv(h, RecvBody(p, version)[..k], version).error.FieldError?
    ensures ParseRecv(h, RecvBody(p, version)[..k], version).error.field == RecvCutField(p, version, k)
  {
    RecvReads(p, version);
    ParseRecvCut(h, RecvBody(p, version), version, p, k);
  }

  /** ParseRecv on a cut of any input whose fields read as those of `p`. */
  lemma ParseRecvCut(h: Framer, full: seq<byte>, version: byte, p: RecvPacket, k: nat)
    requires ReadInt64(full, 0) == Step(Ok(p.messageId), 8)
    requires ReadUint32(full, 8) == Step(Ok(p.messageSeq), 12)
    requires version > 1 ==> ReadBinary(full, 12) == Step(Ok(p.clientMsgNo), RecvTimestampAt(p, version))
    requires RecvFieldsRead(full, RecvTimestampAt(p, version), p)
    requires k < RecvTimestampAt(p, version) + 9 + |p.channelId| + |p.fromUid|
    ensures ParseRecv(h, full[..k], version).Err?
    ensures ParseRecv(h, full[..k], version).error.FieldError?
    ensures ParseRecv(h, full[..k], version).error.field == RecvCutField(p, version, k)
  {
    var m := RecvTimestampAt(p, version);
    if k >= 8 {
      ReadInt64Prefix(full, 0, k);
      if k >= 12 {
        ReadInt32Prefix(full, 8, k);
        if version > 1 {
          ReadBinaryPrefix(full, 12, k);
        }
        if k >= m {
          RecvFieldsCut(h, full, version, p, RecvOnWire(h, p, version).clientMsgNo, m, k);
        }
      }
    }
  }

  /** ParseRecvFields on a cut that falls after the message number. */
  lemma RecvFieldsCut(h: Framer, full: seq<byte>, version: byte, p: RecvPacket, msgNo: seq<byte>, m: nat, k: nat)
    requires RecvFieldsRead(full, m, p)
    requires m <= k < m + 9 + |p.channelId| + |p.fromUid|
    ensures ParseRecvFields(h, full[..k], version, p.messageId, p.messageSeq, msgNo, m).Err?
    ensures ParseRecvFields(h, full[..k], version, p.messageId, p.messageSeq, msgNo, m).error.FieldError?
    ensures ParseRecvFields(h, full[..k], version, p.messageId, p.messageSeq, msgNo, m).error.field
      == RecvFieldsCutField(p, m, k)
  {
    var c := m + 6 + |p.channelId|;
    if k >= m + 4 {
      ReadInt32Prefix(full, m, k);
      ReadBinaryPrefix(full, m + 4, k);
      if k > c {
        ReadUint8Prefix(full, c, k);
        ReadBinaryPrefix(full, c + 1, k);
      }
    }
  }
}
