/** The bookkeeping of the LiMao client: the list of sends still waiting
    for their acknowledgement, the client sequence counter, the heartbeat
    retry counter, the connected flag and the byte counter. The socket is
    the log `written` of the frames written to it, in order; frames that
    arrive, heartbeat timer fires and what the callbacks return are method
    arguments. */
module Client {
  import opened Bytes
  import opened Frames
  import opened Errors
  import opened SendCodec
  import opened RecvCodec
  import opened SendackCodec
  import opened ConnackCodec
  import opened RecvackCodec
  import opened Packets
  import opened Protocol
  import opened Pending

  /** The zero header Go gives a packet struct built without one. */
  const EmptyHeader: Framer := Framer(0, false, false, false, false, 0)

  /** Heartbeat fires without an answer after which the connection closes. */
  const MaxPingRetries: int := 3

  /** The Connect packet the client sends first; its body comes from a
      codec that is not part of this model. */
  function ConnectFrame(body: seq<byte>): Packet
  {
    Other(EmptyHeader.(packetType := CONNECT), body)
  }

  /** What `sendPacket` writes for a packet: its encoding, or nothing when
      it has none. */
  function Written(p: Packet, version: byte): (r: seq<seq<byte>>)
    ensures |r| <= 1
    ensures PacketEncoding(p, version).Ok? ==> r == [PacketEncoding(p, version).value]
  {
    match PacketEncoding(p, version)
    case Ok(b) => [b]
    case Err(_) => []
  }

  /** The frame of a pending send: a SEND always has an encoding. */
  function SendFrame(q: SendPacket, version: byte): (r: seq<byte>)
    ensures PacketEncoding(Send(q), version) == Ok(r)
    ensures Written(Send(q), version) == [r]
  {
    PacketEncoding(Send(q), version).value
  }

  /** The frames a replay of `sending` writes, first packet first. */
  function Replay(sending: seq<SendPacket>, version: byte): (r: seq<seq<byte>>)
    ensures |r| == |sending|
  {
    if sending == [] then []
    else Replay(sending[..|sending| - 1], version) + [SendFrame(sending[|sending| - 1], version)]
  }

  /** The total size of a sequence of frames. */
  function FramesSize(frames: seq<seq<byte>>): nat
  {
    if frames == [] then 0 else FramesSize(frames[..|frames| - 1]) + |frames[|frames| - 1]|
  }

  /** How many of the frames are a PING: the single byte `PING << 4`. */
  function PingCount(frames: seq<seq<byte>>): nat
  {
    if frames == [] then 0
    else PingCount(frames[..|frames| - 1]) + (if frames[|frames| - 1] == [PING * 16] then 1 else 0)
  }

  /** `atomic.Int64.Add`: two's-complement addition in 64 bits. */
  function AddInt64(a: int64, n: int): int64
  {
    Signed64((a + n) % TwoTo64)
  }

  class Client {
    /** The negotiated protocol version every frame is encoded with. */
    const version: byte
    /** Whether `onRecv` and `onClose` callbacks are installed. */
    var hasOnRecv: bool
    var hasOnClose: bool

    var sending: seq<SendPacket>
    var clientIDGen: uint64
    var retryPingCount: int
    var connected: bool
    var sendTotalMsgBytes: int64
    /** Whether the connection is open: Connect dials it, the heartbeat and
        `handleClose` close it. */
    var connOpen: bool
    /** The frames written to the connection, in order. */
    var written: seq<seq<byte>>
    /** The packets handed to `onRecv`, in order. */
    var delivered: seq<RecvPacket>
    /** How often `onClose` was called. */
    var closeNotices: nat

    /** Pending sends are in send order with distinct, already issued
        client sequence numbers. */
    ghost predicate PendingValid()
      reads this`sending, this`clientIDGen
    {
      && Increasing(sending)
      && (forall i :: 0 <= i < |sending| ==> sending[i].clientSeq <= clientIDGen)
    }

    /** The heartbeat counter counts the PINGs written and never passes 3;
        the byte counter is the size of everything written, wrapped to 64
        bits. */
    ghost predicate LogValid()
      reads this`written, this`retryPingCount, this`sendTotalMsgBytes
    {
      && 0 <= retryPingCount <= MaxPingRetries
      && PingCount(written) == retryPingCount
      && sendTotalMsgBytes == Signed64(FramesSize(written) % TwoTo64)
    }

    ghost predicate Valid()
      reads this
    {
      PendingValid() && LogValid()
    }

    /** `New`: no callbacks, nothing pending, nothing written. */
    constructor (version: byte)
      ensures Valid()
      ensures this.version == version && !hasOnRecv && !hasOnClose
      ensures sending == [] && clientIDGen == 0 && retryPingCount == 0 && !connected && !connOpen
      ensures written == [] && delivered == [] && closeNotices == 0
    {
      this.version := version;
      hasOnRecv := false;
      hasOnClose := false;
      sending := [];
      clientIDGen := 0;
      retryPingCount := 0;
      connected := false;
      sendTotalMsgBytes := 0;
      connOpen := false;
      written := [];
      delivered := [];
      closeNotices := 0;
    }

    /** `SetOnRecv`: install or remove the message callback. */
    method SetOnRecv(present: bool)
      modifies this`hasOnRecv
      ensures hasOnRecv == present
    {
      hasOnRecv := present;
    }

    /** `SetOnClose`: install or remove the close callback. */
    method SetOnClose(present: bool)
      modifies this`hasOnClose
      ensures hasOnClose == present
    {
      hasOnClose := present;
    }

    /** `GetSendMsgBytes`: the bytes written so far, which wrap around in
        64 bits and are exact below 2^63. */
    method GetSendMsgBytes() returns (n: int64)
      requires Valid()
      ensures n == Signed64(FramesSize(written) % TwoTo64)
      ensures FramesSize(written) < 0x8000_0000_0000_0000 ==> n == FramesSize(written)
    {
      n := sendTotalMsgBytes;
    }

    /** `sendPacket`: encode the packet, count its bytes and write it; a
        packet without an encoding is an error and nothing is written. The
        heartbeat's PING, which `ping` also hands to `sendPacket`, goes
        through `Ping` here instead, since writing it is what advances the
        retry count that `LogValid` ties to the PINGs on the connection. */
    method SendPacket(p: Packet) returns (err: Option<Error>)
      requires Valid() && GetPacketType(p) != PING
      modifies this`written, this`sendTotalMsgBytes
      ensures Valid()
      ensures written == old(written) + Written(p, version)
      ensures err.None? <==> PacketEncoding(p, version).Ok?
      ensures err.Some? ==> err.value == PacketEncoding(p, version).error
    {
      var data := EncodePacket(p, version);
      if data.Err? {
        return Some(data.error);
      }
      EncodedType(p, version);
      Write(data.value);
      return None;
    }

    /** Counting a frame's bytes and writing it, for any frame but a PING. */
    method Write(frame: seq<byte>)
      requires Valid() && frame != [PING * 16]
      modifies this`written, this`sendTotalMsgBytes
      ensures Valid()
      ensures written == old(written) + [frame]
    {
      LogAppend(written, sendTotalMsgBytes, frame);
      sendTotalMsgBytes := AddInt64(sendTotalMsgBytes, |frame|);
      written := written + [frame];
    }

    /** `ping`: write a PING frame, the single byte `PING << 4`. */
    method Ping()
      requires Valid() && retryPingCount < MaxPingRetries
      modifies this`written, this`sendTotalMsgBytes
      ensures written == old(written) + [[PING * 16]]
      ensures PingCount(written) == old(retryPingCount) + 1
      ensures sendTotalMsgBytes == Signed64(FramesSize(written) % TwoTo64)
    {
      var data := EncodePacket(Packets.Ping, version);
      LogAppend(written, sendTotalMsgBytes, data.value);
      sendTotalMsgBytes := AddInt64(sendTotalMsgBytes, |data.value|);
      written := written + [data.value];
    }

    /** The bookkeeping of `SendMessage`: the next client sequence number
        (the 64-bit counter wraps), the packet appended to the pending list,
        and its frame written. Waiting for the reply is I/O and is not part
        of this model. */
    method SendMessage(channelId: seq<byte>, channelType: byte, clientMsgNo: seq<byte>, payload: seq<byte>)
      returns (err: Option<Error>)
      requires Valid()
      modifies this`clientIDGen, this`sending, this`written, this`sendTotalMsgBytes
      ensures clientIDGen == (old(clientIDGen) + 1) % TwoTo64
      ensures sending == old(sending) + [SendCodec.SendPacket(EmptyHeader, clientIDGen, clientMsgNo, channelId, channelType, payload)]
      ensures written == old(written) + Written(Send(sending[|sending| - 1]), version)
      ensures |written| == |old(written)| + 1 && err.None?
      ensures LogValid()
      ensures old(clientIDGen) + 1 < TwoTo64 ==> Valid()
    {
      var wraps := clientIDGen as int + 1 == TwoTo64;
      clientIDGen := (clientIDGen + 1) % TwoTo64;
      var packet := SendCodec.SendPacket(EmptyHeader, clientIDGen, clientMsgNo, channelId, channelType, payload);
      sending := sending + [packet];
      if !wraps {
        err := SendPacket(Send(packet));
      } else {
        // The counter wrapped: the list is no longer ordered, so the frame
        // is written keeping only the log's invariant.
        err := WriteUnchecked(Send(packet));
      }
    }

    /** `sendPacket` for a packet that always encodes, when the pending
        list may be out of order: the frame is still written and counted. */
    method WriteUnchecked(p: Packet) returns (err: Option<Error>)
      requires LogValid() && GetPacketType(p) != PING && PacketEncoding(p, version).Ok?
      modifies this`written, this`sendTotalMsgBytes
      ensures LogValid()
      ensures written == old(written) + Written(p, version)
      ensures err.None?
    {
      var data := EncodePacket(p, version);
      EncodedType(p, version);
      LogAppend(written, sendTotalMsgBytes, data.value);
      sendTotalMsgBytes := AddInt64(sendTotalMsgBytes, |data.value|);
      written := written + [data.value];
      return None;
    }

    /** `handleSendackPacket`: a search for the first pending send with the
        acknowledged client sequence number, which is dropped. */
    method HandleSendack(packet: SendackPacket)
      requires Valid()
      modifies this`sending
      ensures Valid()
      ensures sending == RemoveFirst(old(sending), packet.clientSeq)
    {
      var i := 0;
      while i < |sending|
        invariant 0 <= i <= |sending| && sending == old(sending)
        invariant forall j :: 0 <= j < i ==> sending[j].clientSeq != packet.clientSeq
      {
        if sending[i].clientSeq == packet.clientSeq {
          RemoveFirstAt(sending, packet.clientSeq, i);
          RemoveAtIncreasing(sending, i);
          sending := sending[..i] + sending[i + 1..];
          return;
        }
        i := i + 1;
      }
      RemoveFirstAbsent(sending, packet.clientSeq);
    }

    /** `handleRecvPacket`: hand the packet to `onRecv` when there is one,
        and acknowledge it with a Recvack echoing its message id and
        sequence number unless the callback failed. */
    method HandleRecv(packet: RecvPacket, callbackFails: bool)
      requires Valid()
      modifies this`delivered, this`written, this`sendTotalMsgBytes
      ensures Valid()
      ensures delivered == old(delivered) + (if hasOnRecv then [packet] else [])
      ensures written == old(written) +
        (if !hasOnRecv || !callbackFails then Written(Recvack(RecvackPacket(EmptyHeader, packet.messageId, packet.messageSeq)), version)
         else [])
      ensures |written| == |old(written)| + 1 <==> !hasOnRecv || !callbackFails
    {
      var failed := false;
      if hasOnRecv {
        delivered := delivered + [packet];
        failed := callbackFails;
      }
      if !failed {
        var _ := SendPacket(Recvack(RecvackPacket(EmptyHeader, packet.messageId, packet.messageSeq)));
      }
    }

    /** `handlePacket`: a Sendack or a Recv is handled, any other frame is
        ignored. */
    method HandlePacket(frame: Packet, callbackFails: bool)
      requires Valid() && WellTyped(frame)
      modifies this`sending, this`delivered, this`written, this`sendTotalMsgBytes
      ensures Valid()
      ensures frame.Sendack? ==>
        sending == RemoveFirst(old(sending), frame.sendack.clientSeq) && written == old(written) &&
        delivered == old(delivered)
      ensures frame.Recv? ==> sending == old(sending)
      ensures frame.Recv? ==> delivered == old(delivered) + (if hasOnRecv then [frame.recv] else [])
      ensures frame.Recv? ==>
        (written == old(written) +
           (if !hasOnRecv || !callbackFails
            then Written(Recvack(RecvackPacket(EmptyHeader, frame.recv.messageId, frame.recv.messageSeq)), version)
            else []))
      ensures !frame.Sendack? && !frame.Recv? ==>
        sending == old(sending) && written == old(written) && delivered == old(delivered) &&
        sendTotalMsgBytes == old(sendTotalMsgBytes)
    {
      var t := GetPacketType(frame);
      if t == SENDACK {
        HandleSendack(frame.sendack);
      } else if t == RECV {
        HandleRecv(frame.recv, callbackFails);
      }
    }

    /** `Connect` once the connection is dialled: write the Connect packet,
        then check the reply read back, which must decode to a Connack with
        the success reason; on success every pending send is written again,
        in list order, and the list itself stays as it is. */
    method Connect(connectBody: seq<byte>, reply: Result<Packet>) returns (err: Option<Error>)
      requires Valid()
      modifies this`connOpen, this`written, this`sendTotalMsgBytes
      ensures Valid() && connOpen
      ensures err.None? <==> reply.Ok? && reply.value.Connack? && reply.value.connack.reasonCode == ReasonSuccess
      ensures reply.Err? ==> err == Some(reply.error)
      ensures reply.Ok? && !reply.value.Connack? ==> err == Some(NotConnack)
      ensures reply.Ok? && reply.value.Connack? && reply.value.connack.reasonCode != ReasonSuccess ==>
        err == Some(ConnectRejected(reply.value.connack.reasonCode))
      ensures written == old(written) + Written(ConnectFrame(connectBody), version) +
        (if err.None? then Replay(sending, version) else [])
    {
      connOpen := true;
      var _ := SendPacket(ConnectFrame(connectBody));
      if reply.Err? {
        return Some(reply.error);
      }
      var f := reply.value;
      if !f.Connack? {
        return Some(NotConnack);
      }
      if f.connack.reasonCode != ReasonSuccess {
        return Some(ConnectRejected(f.connack.reasonCode));
      }
      ReplayPending();
      return None;
    }

    /** The replay loop of `Connect`: every pending send is written again,
        in list order. */
    method ReplayPending()
      requires Valid()
      modifies this`written, this`sendTotalMsgBytes
      ensures Valid()
      ensures written == old(written) + Replay(sending, version)
    {
      var i := 0;
      while i < |sending|
        invariant Valid() && 0 <= i <= |sending|
        invariant written == old(written) + Replay(sending[..i], version)
      {
        ghost var done := Replay(sending[..i], version);
        ghost var next := [SendFrame(sending[i], version)];
        ReplayStep(sending, version, i);
        var _ := SendPacket(Send(sending[i]));
        LogAssoc(old(written), done, next);
        i := i + 1;
      }
      assert sending[..i] == sending;
    }

    /** One fire of the heartbeat timer in `loopPing`: after three
        unanswered PINGs the connection is closed and the loop stops;
        otherwise a PING is written and the counter grows. The counter is
        never reset. */
    method HeartbeatFire() returns (stop: bool)
      requires Valid()
      modifies this`retryPingCount, this`connOpen, this`written, this`sendTotalMsgBytes
      ensures Valid()
      ensures stop <==> old(retryPingCount) >= MaxPingRetries
      ensures retryPingCount == if stop then old(retryPingCount) else old(retryPingCount) + 1
      ensures stop ==> !connOpen && written == old(written)
      ensures !stop ==> connOpen == old(connOpen) && written == old(written) + [[PING * 16]]
    {
      if retryPingCount >= MaxPingRetries {
        connOpen := false;
        return true;
      }
      Ping();
      retryPingCount := retryPingCount + 1;
      return false;
    }

    /** `Disconnect`: the caller's way to close, which is `handleClose`. */
    method Disconnect()
      modifies this`connected, this`connOpen, this`closeNotices
      ensures !connected
      ensures old(connected) ==> !connOpen && closeNotices == old(closeNotices) + (if hasOnClose then 1 else 0)
      ensures !old(connected) ==> connOpen == old(connOpen) && closeNotices == old(closeNotices)
    {
      HandleClose();
    }

    /** `handleClose`: only a connected client closes; it clears the flag,
        closes the connection and tells `onClose` once. */
    method HandleClose()
      modifies this`connected, this`connOpen, this`closeNotices
      ensures !connected
      ensures old(connected) ==> !connOpen && closeNotices == old(closeNotices) + (if hasOnClose then 1 else 0)
      ensures !old(connected) ==> connOpen == old(connOpen) && closeNotices == old(closeNotices)
    {
      if connected {
        connected := false;
        connOpen := false;
        if hasOnClose {
          closeNotices := closeNotices + 1;
        }
      }
    }
  }

  // ---------------------------------------------------------------------
  // Lemmas about the logs

  lemma LogAssoc(a: seq<seq<byte>>, b: seq<seq<byte>>, c: seq<seq<byte>>)
    ensures a + b + c == a + (b + c)
  {
  }

  lemma {:induction false} ReplayStep(s: seq<SendPacket>, version: byte, i: nat)
    requires i < |s|
    ensures Replay(s[..i + 1], version) == Replay(s[..i], version) + [SendFrame(s[i], version)]
  {
    assert s[..i + 1][..i] == s[..i];
  }

  /** A replay writes one frame per pending send, the encoding of that
      send, in list order. */
  lemma {:induction false} ReplayFrames(s: seq<SendPacket>, version: byte, i: nat)
    requires i < |s|
    ensures Replay(s, version)[i] == SendFrame(s[i], version)
    decreases |s|
  {
    var init := s[..|s| - 1];
    var last := SendFrame(s[|s| - 1], version);
    var r, ri := Replay(s, version), Replay(init, version);
    assert r == ri + [last];
    if i < |init| {
      ReplayFrames(init, version, i);
      assert r[i] == ri[i] && init[i] == s[i];
    } else {
      assert r[i] == last;
    }
  }

  /** Each frame of a replay decodes to the pending send it came from. */
  lemma {:induction false} ReplayDecodes(s: seq<SendPacket>, version: byte, i: nat)
    requires i < |s| && Encodable(Send(s[i]), version)
    ensures FramerReadable(Replay(s, version)[i])
    ensures DecodePacket(Replay(s, version)[i], version) ==
      Frame(PacketOnWire(Send(s[i]), version, BodyLength(Send(s[i]), version)), |Replay(s, version)[i]|)
  {
    ReplayFrames(s, version, i);
    PacketRoundTrip(Send(s[i]), version, []);
    assert SendFrame(s[i], version) + [] == Replay(s, version)[i];
  }

  /** Appending a frame adds its size, and counts it as a PING exactly
      when it is one. */
  lemma {:induction false} FramesAppend(frames: seq<seq<byte>>, f: seq<byte>)
    ensures FramesSize(frames + [f]) == FramesSize(frames) + |f|
    ensures PingCount(frames + [f]) == PingCount(frames) + (if f == [PING * 16] then 1 else 0)
  {
    assert (frames + [f])[..|frames|] == frames;
  }

  /** Writing a frame keeps the byte counter equal to the wrapped total
      and the PING count in step. */
  lemma {:induction false} LogAppend(frames: seq<seq<byte>>, counter: int64, f: seq<byte>)
    requires counter == Signed64(FramesSize(frames) % TwoTo64)
    ensures AddInt64(counter, |f|) == Signed64(FramesSize(frames + [f]) % TwoTo64)
    ensures PingCount(frames + [f]) == PingCount(frames) + (if f == [PING * 16] then 1 else 0)
  {
    FramesAppend(frames, f);
    CounterAdd(FramesSize(frames), |f|);
  }

  /** The 64-bit byte counter keeps tracking the total when it grows. */
  lemma {:induction false} CounterAdd(total: nat, n: nat)
    ensures AddInt64(Signed64(total % TwoTo64), n) == Signed64((total + n) % TwoTo64)
  {
    var x := total % TwoTo64;
    DivUnique(total + n, TwoTo64, total / TwoTo64 + (x + n) / TwoTo64, (x + n) % TwoTo64);
    if x >= 0x8000_0000_0000_0000 {
      DivUnique(x - TwoTo64 + n + TwoTo64, TwoTo64, (x + n) / TwoTo64, (x + n) % TwoTo64);
      ModShift(x - TwoTo64 + n, TwoTo64);
    }
  }

  lemma {:induction false} ModShift(a: int, m: int)
    requires m > 0
    ensures (a + m) % m == a % m
  {
    DivUnique(a + m, m, a / m + 1, a % m);
  }
}
