/** The frames the codec exchanges, one variant per packet struct. PING
    and PONG carry nothing: the decoder builds them empty, without the
    header's flags. CONNECT and DISCONNECT bodies are produced and read by
    codecs that are not part of this model; such a frame, or one of a type
    that has no codec at all, is an `Other` holding its header and its raw
    body. */
module Packets {
  import opened Bytes
  import opened Frames
  import opened SendCodec
  import opened RecvCodec
  import opened SendackCodec
  import opened ConnackCodec
  import opened RecvackCodec

  datatype Packet =
    | Connack(connack: ConnackPacket)
    | Send(send: SendPacket)
    | Sendack(sendack: SendackPacket)
    | Recv(recv: RecvPacket)
    | Recvack(recvack: RecvackPacket)
    | Ping
    | Pong
    | Other(header: Framer, body: seq<byte>)

  /** The types with a packet struct of their own in this model. */
  predicate Modelled(t: PacketType)
  {
    t == CONNACK || t == SEND || t == SENDACK || t == RECV || t == RECVACK || t == PING || t == PONG
  }

  /** Each struct's `GetPacketType`: a constant per struct, whatever the
      packet type recorded in its embedded header. */
  function GetPacketType(p: Packet): (t: PacketType)
    ensures WellTyped(p) ==> (t == PING <==> p.Ping?) && (t == PONG <==> p.Pong?)
    ensures WellTyped(p) ==> (t == SEND <==> p.Send?) && (t == RECV <==> p.Recv?)
    ensures WellTyped(p) ==> (t == CONNACK <==> p.Connack?) && (t == SENDACK <==> p.Sendack?) && (t == RECVACK <==> p.Recvack?)
  {
    match p
    case Connack(_) => CONNACK
    case Send(_) => SEND
    case Sendack(_) => SENDACK
    case Recv(_) => RECV
    case Recvack(_) => RECVACK
    case Ping => PING
    case Pong => PONG
    case Other(h, _) => h.packetType
  }

  /** A Go frame of a modelled type is always that type's struct, so an
      `Other` never has one of those types. */
  predicate WellTyped(p: Packet)
  {
    p.Other? ==> !Modelled(p.header.packetType)
  }

  /** The header embedded in a frame other than PING or PONG. */
  function Header(p: Packet): Framer
    requires !p.Ping? && !p.Pong?
  {
    match p
    case Connack(c) => c.header
    case Send(s) => s.header
    case Sendack(s) => s.header
    case Recv(r) => r.header
    case Recvack(r) => r.header
    case Other(h, _) => h
  }
}
