/** The frame header record and the packet-type numbering. Their Go
    definitions (`Framer`, `PacketType`, `ReasonCode`) live in a file that
    is not part of this model; only what the codec relies on is declared:
    a packet type is a 4-bit value, the nine named types are distinct, and
    a reason code is a byte. */
module Frames {
  import opened Bytes

  /** The high nibble of the header byte. */
  type PacketType = x: int | 0 <= x < 16

  const CONNECT: PacketType := 1
  const CONNACK: PacketType := 2
  const SEND: PacketType := 3
  const SENDACK: PacketType := 4
  const RECV: PacketType := 5
  const RECVACK: PacketType := 6
  const PING: PacketType := 7
  const PONG: PacketType := 8
  const DISCONNECT: PacketType := 9

  /** The reason code a successful Connack carries. */
  const ReasonSuccess: byte := 1

  /** PING and PONG frames are a header byte and nothing else. */
  predicate IsControl(t: PacketType)
  {
    t == PING || t == PONG
  }

  /** The types that have a body encoder and decoder in the registries. */
  predicate Registered(t: PacketType)
  {
    t == CONNECT || t == CONNACK || t == SEND || t == SENDACK ||
    t == RECV || t == RECVACK || t == DISCONNECT
  }

  /** The fixed header every packet embeds. */
  datatype Framer = Framer(
    packetType: PacketType,
    dup: bool,
    syncOnce: bool,
    redDot: bool,
    noPersist: bool,
    remainingLength: uint32)
}

/** The errors the codec and the client return, and the result type that
    carries them. */
module Errors {
  import Frames

  /** The packet fields a decoder names when one of its reads fails. */
  datatype Field =
    | ClientSeq | ClientMsgNo | ChannelId | ChannelType | MessageId
    | MessageSeq | Timestamp | FromUid | TimeDiff | ReasonCode

  datatype Error =
    | EOF                                        // the reader had no bytes left
    | ShortRead(got: int, want: int)             // a read filled only part of its buffer
    | NegativeSize(size: int)                    // a length prefix read as a negative int16
    | FieldError(field: Field, cause: Error)     // a field read failed
    | PayloadStart                               // the payload would start past the body
    | Oversize                                   // remaining length above the maximum
    | Unsupported(packetType: Frames.PacketType) // no codec registered for the type
    | PacketError(packetType: Frames.PacketType, cause: Error) // a body decoder failed
    | NotConnack                                 // the reply to Connect was another packet
    | ConnectRejected(reason: int)               // the Connack reason was not success

  datatype Result<T> = Ok(value: T) | Err(error: Error)

  datatype Option<T> = None | Some(value: T)
}
