# LiMao wire codec and client, modelled in Dafny

This project models two parts of the LiMao instant-messaging Go client:

- **The `lmproto` wire codec.** It covers:
  - the byte-level `Encoder` and `Decoder`, including the behaviour of Go's `bytes.Reader` underneath;
  - the fixed header (`Framer`): a header byte holding the packet type and four flags, followed by a base-128 remaining length;
  - `EncodePacket` and `DecodePacket`, with their registries of body codecs;
  - the body codecs of SEND, RECV, SENDACK, CONNACK and RECVACK, and the empty PING and PONG frames.
- **The `client` bookkeeping in `pkg/client/client.go`.** It covers:
  - the list of sends still awaiting their acknowledgement;
  - the client sequence counter;
  - the byte counter of everything sent;
  - the ping retry counter;
  - the handshake and replay in `Connect`;
  - the dispatch of incoming SENDACK and RECV packets;
  - close handling;
  - `parseAddr`, together with the part of `strconv.ParseInt` it relies on.

## How the model is organised

- **Go integer widths.** These are subset types of `int`. Truncations (`uint32(len(data))`, `uint32(clientSeq)`) and wrap-around are written out: the atomic `int64` byte counter adds modulo 2^64, and the `uint64` id generator wraps.
- **Encoder and Decoder.** Both are classes over a byte sequence, because the Go code mutates a buffer and a read cursor. Each method is proved against a pure function:
  - `ReadUint32`, `ReadBinary` and the other `Read*` functions return the value or error together with the new cursor;
  - `BinaryBytes`, `BigEndian` and `VarDigits` give the bytes written.
- **The codecs.** These are functions over those pure readers. Each has a method twin (`EncodeSend`, `DecodeRecv`, ...) that is written with the Encoder and Decoder classes, as the Go code is, and is proved equal to the function.
- **The client.** It is a class whose fields are the Go struct's fields. The socket is an append-only log `written` of the frames written to it. The class invariant ties the counters to that log:
  - `sendTotalMsgBytes` is the int64 wrap of the total size of the frames;
  - `retryPingCount` is the number of PING frames in the log, and is at most 3;
  - the pending sends are in increasing `clientSeq` order, and each `clientSeq` is at most the generator's value.
- **Callbacks.** These are a presence flag (`hasOnRecv`, `hasOnClose`) plus an argument that says how the callback turned out (`callbackFails`). The packets handed to `onRecv` are logged in `delivered`, and the number of `onClose` calls in `closeNotices`.
- **Packet type numbering.** `PacketType` and `ReasonCode` are declared in a Go file that is not part of this model. The model numbers the nine types CONNECT = 1 … DISCONNECT = 9 and takes `ReasonSuccess` = 1. No proof depends on these values beyond the types being distinct 4-bit numbers.

## Model

| member | source | states |
|---|---|---|
| Bytes.BigEndian | pkg/lmproto/encoder.go:55-100 | the big-endian encoding of a value in `n` bytes has exactly `n` bytes |
| Bytes.FromBigEndian | pkg/lmproto/decoder.go:139-159 | a big-endian word of `n` bytes is below 256^n |
| Bytes.ToUint32 | pkg/lmproto/send.go:57 | Go's `uint32(...)` conversion leaves a value that already fits in 32 bits unchanged |
| Bytes.FromBigEndianInverts | pkg/lmproto/decoder.go:153-159 | reading `n` big-endian bytes gives back the written value modulo 256^n |
| Bytes.Unsigned16RoundTrip | pkg/lmproto/decoder.go:92-98 | a 16-bit value written by WriteUint16 reads back unchanged |
| Bytes.Unsigned32RoundTrip | pkg/lmproto/decoder.go:153-159 | a uint32 written by WriteUint32 reads back unchanged |
| Bytes.Unsigned64RoundTrip | pkg/lmproto/decoder.go:125-136 | a uint64 written by WriteUint64 reads back unchanged |
| Bytes.Signed32RoundTrip | pkg/lmproto/decoder.go:139-150 | an int32 written as its two's-complement bytes reads back unchanged through the signed reinterpretation |
| Bytes.Signed64RoundTrip | pkg/lmproto/decoder.go:111-122 | an int64 written as its two's-complement bytes reads back unchanged |
| Bytes.VarDigits | pkg/lmproto/protocol.go:214-225 | defines `encodeVariable`'s output: the base-128 digits, least significant first, with the continuation bit 0x80 on every digit but the last, and none for zero |
| Bytes.VarDigitsShape | pkg/lmproto/protocol.go:214-225 | encodeVariable gives no bytes exactly for zero; otherwise every byte but the last carries the continuation bit 0x80 |
| Bytes.VarDigitsValue | pkg/lmproto/protocol.go:214-225 | the low seven bits of the digits, read least significant first, give the encoded number back |
| Bytes.VarDigitsLength | pkg/lmproto/protocol.go:214-225 | a number needs at most `k` digits exactly when it is below 128^k, in both directions |
| Encoding.BinaryBytes | pkg/lmproto/encoder.go:113-121 | a length-prefixed string takes its length plus two bytes |
| Encoding.Encoder.constructor | pkg/lmproto/encoder.go:13-17 | a new encoder's buffer is empty |
| Encoding.Encoder.Bytes | pkg/lmproto/encoder.go:20-22 | returns the buffer written so far |
| Encoding.Encoder.Len | pkg/lmproto/encoder.go:25-27 | returns the number of bytes written so far |
| Encoding.Encoder.WriteByte | pkg/lmproto/encoder.go:30-32 | appends the byte and nothing else |
| Encoding.Encoder.WriteInt | pkg/lmproto/encoder.go:35-37 | appends the low byte of the int (Go's `byte(i)` truncation) |
| Encoding.Encoder.WriteUint8 | pkg/lmproto/encoder.go:40-42 | appends the byte |
| Encoding.Encoder.WriteInt16 | pkg/lmproto/encoder.go:45-47 | appends the low 16 bits big-endian, truncating the int |
| Encoding.Encoder.WriteUint16 | pkg/lmproto/encoder.go:50-52 | appends the value as two big-endian bytes |
| Encoding.Encoder.WriteInt32 | pkg/lmproto/encoder.go:55-62 | appends the two's-complement value as four big-endian bytes |
| Encoding.Encoder.WriteInt64 | pkg/lmproto/encoder.go:65-76 | appends the two's-complement value as eight big-endian bytes |
| Encoding.Encoder.WriteUint64 | pkg/lmproto/encoder.go:79-90 | appends the value as eight big-endian bytes |
| Encoding.Encoder.WriteUint32 | pkg/lmproto/encoder.go:93-100 | appends the value as four big-endian bytes |
| Encoding.Encoder.WriteString | pkg/lmproto/encoder.go:103-105 | appends a 16-bit big-endian length and the string's bytes |
| Encoding.Encoder.WriteStringAll | pkg/lmproto/encoder.go:108-110 | appends the string's bytes with no length |
| Encoding.Encoder.WriteBinary | pkg/lmproto/encoder.go:113-121 | appends a 16-bit big-endian length and the bytes |
| Encoding.Encoder.WriteBytes | pkg/lmproto/encoder.go:124-126 | appends the bytes as they are |
| Encoding.Encoder.WriteVariable | pkg/lmproto/encoder.go:129-140 | appends the base-128 digits of a positive value, least significant first; appends nothing for zero or below |
| Decoding.ShortError | pkg/lmproto/decoder.go:64-75 | defines the error of a fixed-size read that does not fill its buffer: EOF when nothing is left, otherwise a short read naming the bytes copied and the bytes wanted |
| Decoding.Fill | pkg/lmproto/decoder.go:64-75 | one `bytes.Reader.Read` into a fixed buffer never moves the cursor backwards or past the end |
| Decoding.ReadUint8 | pkg/lmproto/decoder.go:64-75 | a byte read succeeds exactly when one byte is left; the cursor stays in bounds |
| Decoding.ReadInt16 | pkg/lmproto/decoder.go:78-89 | succeeds exactly when two bytes are left; the cursor stays in bounds |
| Decoding.ReadUint16 | pkg/lmproto/decoder.go:92-98 | succeeds exactly when two bytes are left |
| Decoding.ReadInt32 | pkg/lmproto/decoder.go:139-150 | succeeds exactly when four bytes are left |
| Decoding.ReadUint32 | pkg/lmproto/decoder.go:153-159 | succeeds exactly when four bytes are left |
| Decoding.ReadInt64 | pkg/lmproto/decoder.go:111-122 | succeeds exactly when eight bytes are left |
| Decoding.ReadUint64 | pkg/lmproto/decoder.go:125-136 | succeeds exactly when eight bytes are left |
| Decoding.ReadBinary | pkg/lmproto/decoder.go:179-194 | on success the result is exactly the `size` bytes after the two-byte length, and the cursor is just past them |
| Decoding.ReadAll | pkg/lmproto/decoder.go:197-209 | always succeeds with everything left, including when nothing is left |
| Decoding.ReadBytes | pkg/lmproto/decoder.go:101-108 | fails exactly at the end of the data; otherwise returns `num` bytes: those available, then zero filling, with the cursor moved only over the available ones |
| Decoding.Terminator | pkg/lmproto/decoder.go:217-227 | the position where the variable-length loop exits: the first byte at or after the cursor without the continuation bit, or none when every remaining byte has it |
| Decoding.ReadVariable | pkg/lmproto/decoder.go:212-229 | the cursor ends in bounds; the value is fixed by VariableRoundTrip |
| Decoding.VariableRoundTrip | pkg/lmproto/decoder.go:212-229 | the digits WriteVariable writes for a positive number read back as that number modulo 2^64, stopping after the last digit |
| Decoding.Decoder.constructor | pkg/lmproto/decoder.go:38-42 | a new decoder reads the given bytes from the start |
| Decoding.Decoder.Len | pkg/lmproto/decoder.go:45-47 | returns the number of unread bytes |
| Decoding.Decoder.Read | pkg/lmproto/decoder.go:64-75 | `bytes.Reader.Read`: EOF with nothing moved at the end; otherwise copies min(want, left) bytes and advances by that many |
| Decoding.Decoder.Uint8 | pkg/lmproto/decoder.go:64-75 | result and new cursor are those of ReadUint8 |
| Decoding.Decoder.Int16 | pkg/lmproto/decoder.go:78-89 | result and new cursor are those of ReadInt16 |
| Decoding.Decoder.Uint16 | pkg/lmproto/decoder.go:92-98 | result and new cursor are those of ReadUint16 |
| Decoding.Decoder.Bytes | pkg/lmproto/decoder.go:101-108 | result and new cursor are those of ReadBytes |
| Decoding.Decoder.Int64 | pkg/lmproto/decoder.go:111-122 | result and new cursor are those of ReadInt64 |
| Decoding.Decoder.Uint64 | pkg/lmproto/decoder.go:125-136 | result and new cursor are those of ReadUint64 |
| Decoding.Decoder.Int32 | pkg/lmproto/decoder.go:139-150 | result and new cursor are those of ReadInt32 |
| Decoding.Decoder.Uint32 | pkg/lmproto/decoder.go:153-159 | result and new cursor are those of ReadUint32 |
| Decoding.Decoder.String | pkg/lmproto/decoder.go:161-167 | result and new cursor are those of ReadBinary |
| Decoding.Decoder.StringAll | pkg/lmproto/decoder.go:170-176 | result and new cursor are those of ReadAll |
| Decoding.Decoder.Binary | pkg/lmproto/decoder.go:179-194 | result and new cursor are those of ReadBinary |
| Decoding.Decoder.BinaryAll | pkg/lmproto/decoder.go:197-209 | result and new cursor are those of ReadAll |
| Decoding.Decoder.Variable | pkg/lmproto/decoder.go:212-229 | the loop's result and new cursor are those of ReadVariable, with the 64-bit accumulator and multiplier wrapping |
| Decoding.ReadUint8At | pkg/lmproto/decoder.go:64-75 | a byte written by WriteUint8 reads back, and the cursor is left at the next field |
| Decoding.ReadInt16At | pkg/lmproto/decoder.go:78-89 | a length below 2^15 written big-endian reads back as that int16 |
| Decoding.ReadUint32At | pkg/lmproto/decoder.go:153-159 | a uint32 written big-endian reads back, and the cursor is left at the next field |
| Decoding.ReadInt32At | pkg/lmproto/decoder.go:139-150 | an int32 written big-endian reads back, and the cursor is left at the next field |
| Decoding.ReadInt64At | pkg/lmproto/decoder.go:111-122 | an int64 written big-endian reads back, and the cursor is left at the next field |
| Decoding.ReadUint64At | pkg/lmproto/decoder.go:125-136 | a uint64 written big-endian reads back, and the cursor is left at the next field |
| Decoding.ReadBinaryAt | pkg/lmproto/decoder.go:179-194 | a string shorter than 2^15 written by WriteString reads back, and the cursor is left at the next field |
| Decoding.ReadBinaryCut | pkg/lmproto/decoder.go:188-192 | a length-prefixed string cut short fails to read |
| Decoding.ReadBinaryPrefix | pkg/lmproto/decoder.go:179-194 | a string read does not depend on bytes after it, and fails when the input ends inside it |
| SendCodec.SendBody | pkg/lmproto/send.go:64-80 | the SEND body's length is the sum of its fields' sizes, the message number counting only above version 1 |
| SendCodec.EncodeSend | pkg/lmproto/send.go:64-80 | the Encoder calls produce SendBody |
| SendCodec.ParseSend | pkg/lmproto/send.go:28-62 | a decoded packet keeps the frame header and has no message number at version 1; below 2^32 bytes every failure names the field that failed |
| SendCodec.DecodeSend | pkg/lmproto/send.go:28-62 | the Decoder calls give ParseSend |
| SendCodec.SendReads | pkg/lmproto/send.go:28-62 | each field of an encoded body reads back at its offset, and the payload is what follows the channel type |
| SendCodec.ParseSendInverts | pkg/lmproto/send.go:28-80 | decoding an encoded SEND body gives the packet back, with the sequence number cut to 32 bits and the message number dropped at version 1 |
| SendCodec.SendTruncated | pkg/lmproto/send.go:35-52 | a body cut before the payload fails, naming the field the cut falls in |
| RecvCodec.RecvBody | pkg/lmproto/recv.go:76-98 | the RECV body's length is the sum of its fields' sizes |
| RecvCodec.EncodeRecv | pkg/lmproto/recv.go:76-98 | the Encoder calls produce RecvBody |
| RecvCodec.ParseRecv | pkg/lmproto/recv.go:30-74 | a decoded packet keeps the header and has no message number at version 1; below 2^32 bytes every failure names a field |
| RecvCodec.ParseRecvFields | pkg/lmproto/recv.go:30-74 | the fields after the message number keep the header and message number; failures name a field |
| RecvCodec.DecodeRecv | pkg/lmproto/recv.go:30-74 | the Decoder calls give ParseRecv |
| RecvCodec.RecvReads | pkg/lmproto/recv.go:30-74 | each field of an encoded RECV body reads back at its offset |
| RecvCodec.ParseRecvInverts | pkg/lmproto/recv.go:30-98 | decoding an encoded RECV body gives the packet back, with the message number dropped at version 1 |
| RecvCodec.RecvTruncated | pkg/lmproto/recv.go:30-74 | a body cut before the payload fails, naming the field the cut falls in |
| SendackCodec.SendackBody | pkg/lmproto/sendack.go:54-65 | a SENDACK body is 17 bytes |
| SendackCodec.EncodeSendack | pkg/lmproto/sendack.go:54-65 | the Encoder calls produce SendackBody |
| SendackCodec.ParseSendack | pkg/lmproto/sendack.go:27-52 | succeeds exactly when 17 bytes are there; the reason code is byte 16; a failure names the field, with the reason code's failure labelled as the channel type as in the source |
| SendackCodec.DecodeSendack | pkg/lmproto/sendack.go:27-52 | the Decoder calls give ParseSendack |
| SendackCodec.ParseSendackInverts | pkg/lmproto/sendack.go:27-65 | decoding an encoded SENDACK body, whatever follows it, gives the packet back with the sequence number cut to 32 bits |
| SendackCodec.SendackPrefix | pkg/lmproto/sendack.go:27-52 | bytes after the 17th do not change the decoded packet |
| ConnackCodec.ConnackBody | pkg/lmproto/connack.go:24-30 | a CONNACK body is 9 bytes |
| ConnackCodec.EncodeConnack | pkg/lmproto/connack.go:24-30 | the Encoder calls produce ConnackBody |
| ConnackCodec.ParseConnack | pkg/lmproto/connack.go:32-47 | succeeds exactly when 9 bytes are there, with the reason code at byte 8; a failure names the time difference or the reason code |
| ConnackCodec.DecodeConnack | pkg/lmproto/connack.go:32-47 | the Decoder calls give ParseConnack |
| ConnackCodec.ParseConnackInverts | pkg/lmproto/connack.go:24-47 | decoding an encoded CONNACK body gives the packet back under the frame's header |
| ConnackCodec.ConnackExample | pkg/lmproto/connack_test.go:11-28 | at the body level only: the test's packet body (time difference 12345, success) parses back to the same packet at version 1 |
| RecvackCodec.RecvackBody | pkg/lmproto/recvack.go:41-47 | a RECVACK body is 12 bytes |
| RecvackCodec.EncodeRecvack | pkg/lmproto/recvack.go:41-47 | the Encoder calls produce RecvackBody |
| RecvackCodec.ParseRecvack | pkg/lmproto/recvack.go:25-39 | succeeds exactly when 12 bytes are there; a failure names the message id or the message sequence |
| RecvackCodec.DecodeRecvack | pkg/lmproto/recvack.go:25-39 | the Decoder calls give ParseRecvack |
| RecvackCodec.ParseRecvackInverts | pkg/lmproto/recvack.go:25-47 | decoding an encoded RECVACK body gives the packet back under the frame's header |
| Frames.Registered | pkg/lmproto/protocol.go:39-56 | defines the types with an entry in the encoder and decoder registries: CONNECT, CONNACK, SEND, SENDACK, RECV, RECVACK and DISCONNECT |
| Packets.GetPacketType | pkg/lmproto/ping.go:9-11 | each struct reports its own constant type, so type and struct determine each other in both directions |
| Protocol.HeaderByte | pkg/lmproto/protocol.go:170-171 | defines the header byte: the type in the high four bits, then the dup, syncOnce, redDot and noPersist bits |
| Protocol.HeaderFields | pkg/lmproto/protocol.go:181-187 | defines what `decodeFramer` takes from a header byte: the type from the high four bits and the four flags from the low bits |
| Protocol.HeaderByteInverts | pkg/lmproto/protocol.go:165-193 | decodeFramer recovers the packet type and the four flags that encodeFramer packs into the header byte |
| Protocol.HeaderFieldsInverts | pkg/lmproto/protocol.go:165-193 | re-packing the fields decodeFramer reads from a header byte gives that byte back |
| Protocol.EncodeVariable | pkg/lmproto/protocol.go:214-225 | the loop produces the base-128 digits of the size, least significant first |
| Protocol.LengthEnd | pkg/lmproto/protocol.go:226-240 | decodeLength stops at the first byte without the continuation bit, or after four bytes |
| Protocol.LengthOf | pkg/lmproto/protocol.go:226-240 | the remaining length takes 1 to 5 bytes and is below 2^28 |
| Protocol.DecodeLength | pkg/lmproto/protocol.go:226-240 | the loop's value and byte count are LengthOf's |
| Protocol.LengthRoundTrip | pkg/lmproto/protocol.go:214-240 | a length from 1 to 2^28 - 1 encoded by encodeVariable decodes back, with its digit count |
| Protocol.LengthCut | pkg/lmproto/protocol.go:226-240 | bytes after the length's digits do not change it |
| Protocol.FramerBytes | pkg/lmproto/protocol.go:165-179 | defines `encodeFramer`'s output: the type shifted alone for PING and PONG, otherwise the header byte followed by the length's base-128 digits |
| Protocol.EncodeFramer | pkg/lmproto/protocol.go:165-179 | produces the header byte, then the digits of the remaining length except for PING and PONG |
| Protocol.DecodeFramer | pkg/lmproto/protocol.go:180-193 | the type is the high nibble; PING and PONG read no length |
| Protocol.BodyEncoding | pkg/lmproto/protocol.go:138-146 | a body is produced exactly for the types with a registered encoder |
| Protocol.EncodeBody | pkg/lmproto/protocol.go:138-146 | the registry dispatch gives BodyEncoding |
| Protocol.BodyDecoding | pkg/lmproto/protocol.go:117-125 | a decoded body is a well-typed packet of the header's type, carrying that header |
| Protocol.PacketEncoding | pkg/lmproto/protocol.go:130-163 | PING and PONG encode to their header byte alone; encoding fails, naming the type, exactly for a type with no encoder |
| Protocol.EncodePacket | pkg/lmproto/protocol.go:130-163 | the Encoder-based method gives PacketEncoding |
| Protocol.Locate | pkg/lmproto/protocol.go:95-116 | finds the control types; finds a body exactly when the type is not PING or PONG, the length is within the maximum and the whole frame is present, and then its bounds are 1 + the length's size up to that plus the length, under the header byte's flags with the decoded length |
| Protocol.DecodePacket | pkg/lmproto/protocol.go:95-127 | PING and PONG decode from one byte; an oversize length fails; a whole frame of a type without a decoder fails as unsupported with its number; otherwise a body decoder's error comes back wrapped with the packet type, and its packet comes back with the frame's end as the bytes consumed |
| Protocol.DecodeIgnoresTrailing | pkg/lmproto/protocol.go:95-127 | bytes after a complete frame do not change what decodes |
| Protocol.DecodeCutFrame | pkg/lmproto/protocol.go:112-115 | a frame cut after its length but before its end is reported incomplete, not as an error |
| Protocol.BodyRoundTrip | pkg/lmproto/protocol.go:117-125 | decoding an encoded body under its wire header gives the packet as it travels |
| Protocol.FrameLayout | pkg/lmproto/protocol.go:148-153 | an encoded frame is header byte, length digits, body, and Locate finds the body there |
| Protocol.ConnackFrameExample | pkg/lmproto/connack_test.go:11-28 | the test's Connack with a zero header, encoded as a frame at version 1 and decoded, is consumed whole and comes back a Connack with time difference 12345 and the success reason code |
| Protocol.PacketRoundTrip | pkg/lmproto/protocol.go:95-163 | DecodePacket of EncodePacket, followed by anything, gives the packet as it travels and consumes exactly the frame |
| Protocol.ControlRoundTrip | pkg/lmproto/ping_test.go:10-21 | PING and PONG encode to one byte and decode back from it |
| Protocol.FrameRoundTrip | pkg/lmproto/send_test.go:9-39 | a packet with a body round-trips through EncodePacket and DecodePacket |
| Protocol.EncodedType | pkg/lmproto/protocol.go:165-171 | the high nibble of an encoded frame's first byte is the packet's type |
| Pending.RemoveFirst | pkg/client/client.go:218-222 | defines the pending list after an acknowledgement: the first send with the acknowledged client sequence number is dropped, and nothing else changes |
| Pending.RemoveFirstAt | pkg/client/client.go:217-224 | removing the first pending send with a sequence number takes out exactly that element |
| Pending.RemoveFirstAbsent | pkg/client/client.go:217-224 | an acknowledgement for a number nobody holds leaves the list unchanged |
| Pending.RemoveAtIncreasing | pkg/client/client.go:220 | cutting one element out of a list in increasing order keeps it increasing |
| Pending.RemoveFirstIncreasing | pkg/client/client.go:217-224 | an acknowledgement keeps the list increasing, removes only sends with that number, and shortens the list by one exactly when the number was held |
| Pending.RemoveFirstFound | pkg/client/client.go:217-224 | in an increasing list the match at `i` is the one removed |
| Client.ConnectFrame | pkg/client/client.go:74-80 | defines the CONNECT packet `Connect` sends first: a zero header of type CONNECT over a body the client's options supply |
| Client.AddInt64 | pkg/client/client.go:184 | defines `atomic.Int64.Add`: two's-complement addition that wraps in 64 bits |
| Client.Written | pkg/client/client.go:179-187 | sendPacket writes at most one frame, and that frame is the encoding when encoding succeeds |
| Client.SendFrame | pkg/lmproto/protocol.go:138-153 | a SEND packet always encodes, and sendPacket writes exactly that frame |
| Client.Replay | pkg/client/client.go:95-99 | the replay writes one frame per pending send |
| Client.ReplayFrames | pkg/client/client.go:95-99 | the i-th replayed frame is the encoding of the i-th pending send |
| Client.ReplayDecodes | pkg/client/client.go:95-99 | each replayed frame decodes back to its pending send, as it travels |
| Client.FramesAppend | pkg/client/client.go:184-185 | writing a frame adds its length to the total and counts one more ping exactly for a PING frame |
| Client.LogAppend | pkg/client/client.go:184 | the int64 counter after `Add(len(data))` is the wrapped total of the log with the new frame |
| Client.CounterAdd | pkg/client/client.go:184 | adding to the wrapped int64 counter equals wrapping the new total |
| Client.Client.constructor | pkg/client/client.go:48-63 | a new client has no callbacks, no pending sends, zeroed counters, no connection and an empty log |
| Client.Client.SetOnRecv | pkg/client/client.go:142-144 | sets whether a receive callback is installed and nothing else |
| Client.Client.SetOnClose | pkg/client/client.go:147-149 | sets whether a close callback is installed and nothing else |
| Client.Client.GetSendMsgBytes | pkg/client/client.go:152-154 | the counter equals the total size of the frames sent, wrapped to int64, and equals it outright below 2^63 |
| Client.Client.SendPacket | pkg/client/client.go:179-187 | on an encoding error nothing is written and the error is returned; otherwise exactly the encoded frame is written and counted |
| Client.Client.Write | pkg/client/client.go:184-185 | appends the frame to the socket log and keeps the counter equal to the wrapped total |
| Client.Client.WriteUnchecked | pkg/client/client.go:179-187 | sendPacket for a packet that is not a PING and always encodes, when the pending list may be out of order: the frame is written and the byte counter stays the 64-bit wrapped size of everything written |
| Client.Client.Ping | pkg/client/client.go:174-176 | writes one PING byte and the PING count in the log becomes the retry count plus one |
| Client.Client.SendMessage | pkg/client/client.go:121-133 | advances the 64-bit id generator with wrap-around, queues a send carrying the new id, and writes its frame; the byte counter stays the wrapped size of everything written on every path, and the pending list stays ordered while the generator does not wrap |
| Client.Client.HandleSendack | pkg/client/client.go:217-224 | the pending list becomes the old one with the first send of the acknowledged number removed |
| Client.Client.HandleRecv | pkg/client/client.go:227-238 | delivers to the callback if one is set, and acknowledges exactly when there is no callback or it succeeded |
| Client.Client.HandlePacket | pkg/client/client.go:206-215 | SENDACK removes the acknowledged send and writes and delivers nothing; RECV delivers the packet when a callback is installed and writes its RECVACK (message id and sequence under a zero header) unless the callback fails, leaving the pending list alone; every other type changes nothing |
| Client.Client.Connect | pkg/client/client.go:67-103 | sends CONNECT; fails with the decode error, a not-CONNACK error or a rejection; replays the pending sends in order exactly on success |
| Client.Client.ReplayPending | pkg/client/client.go:95-99 | writes Replay of the pending list after the existing log |
| Client.Client.HeartbeatFire | pkg/client/client.go:159-166 | after three unanswered pings closes the connection and stops; otherwise pings and counts the retry |
| Client.Client.Disconnect | pkg/client/client.go:105-108 | is `handleClose`: only when connected clears the flag, closes the socket and notifies the close callback once if set |
| Client.Client.HandleClose | pkg/client/client.go:110-118 | only when connected: clears the flag, closes the socket and notifies the close callback once if set |
| Addresses.LowerChar | pkg/client/client.go:242 | defines the lower case of one character: an ASCII capital moves down by 32, every other character stays |
| Addresses.Lower | pkg/client/client.go:242 | lower-casing keeps the length and maps each character |
| Addresses.LowerConcat | pkg/client/client.go:242 | lower-casing works piece by piece |
| Addresses.Index | pkg/client/client.go:243-244 | finds the first occurrence of the separator, or -1 when there is none |
| Addresses.Before | pkg/client/client.go:244-248 | defines the first field of `strings.Split`: everything before the first separator, or the whole string when there is none |
| Addresses.After | pkg/client/client.go:244-248 | defines the second field of `strings.Split` when the separator occurs once more: everything after its first occurrence |
| Addresses.SplitAround | pkg/client/client.go:244-246 | the text is the part before the first separator, the separator and the rest, and the first part holds no separator |
| Addresses.IndexAfterPrefix | pkg/client/client.go:244-246 | a separator after a prefix without one splits off exactly that prefix |
| Addresses.ScanDigits | pkg/client/client.go:249 | a digit scan that has not failed stays at most 2^64 - 1 |
| Addresses.ScanDigitsValue | pkg/client/client.go:249 | an all-digit string scans to its decimal value, or to the range error above 2^64 - 1 |
| Addresses.ScanStays | pkg/client/client.go:249 | once the scan has failed, further characters do not change the failure |
| Addresses.ParseInt | pkg/client/client.go:249-250 | the result of `strconv.ParseInt(s, 10, 64)`, error ignored, is always within int64 |
| Addresses.ParseIntDigits | pkg/client/client.go:249 | an unsigned decimal gives its value, clamped to the largest int64 |
| Addresses.ParseIntNegative | pkg/client/client.go:249 | a negative decimal gives its negation, clamped to the smallest int64 |
| Addresses.ParseIntSyntax | pkg/client/client.go:249 | a non-digit character before the value is complete gives 0 |
| Addresses.ParseIntDecimal | pkg/client/client.go:249 | a port written in decimal parses back to itself |
| Addresses.ParseAddr | pkg/client/client.go:240-253 | without "://" the result is "tcp", the lower-cased address and port 0 |
| Addresses.ParseAddrShape | pkg/client/client.go:243-248 | with "://" the network and address hold no "://", the address holds a ':', and network + "://" + address is a prefix of the lower-cased input |
| Addresses.ParseAddrBuilds | pkg/client/client_test.go:10 | `network://host:port` in lower case splits into that network, the address `host:port` and the port |
| Addresses.ParseAddrPlain | pkg/client/client.go:241-243 | an address with no ':' at all is accepted and gives "tcp", the address lower-cased and port 0 |

## Left out

- **The network.** `net.Dial`, the connection and `conn.Close` are not modelled. The socket is the append-only log `written`. A write error from `conn.Write` is not modelled: every write succeeds.
- **Goroutines and timers.** `loopConn`, `loopPing`, the heartbeat `time.Timer` (20 seconds), `stopHeartbeatChan` and the atomics' concurrency are left out. Each timer fire is a call to `HeartbeatFire`, and each frame read by `loopConn` is a call to `HandlePacket`. In the source the one-shot timer is never reset, so it fires at most once; the model allows any number of fires.
- **Reconnection.** The path out of `loopConn` is not modelled: `handleClose`, then `connected` set to true, the stop signal and a new `Connect`. This path is the only place that sets `connected` to true, so in the model `connected` becomes true only through that path, which is not there.
- Client.Client.HandleClose (and Client.Client.Disconnect, which calls it): with the reconnection path left out, `connected` is never true in a reachable state of the model, so their closing branch is stated but never taken; in the source too a `Disconnect` right after `Connect` finds `connected` false and does nothing.
- **Stream decoding.** `DecodePacketWithConn`, `decodeFramerWithConn` and `decodeLengthWithConn` read from a stream. `Connect` takes the decoded reply as its `reply` argument instead.
- **The reply to `SendMessage`.** After the send, `SendMessage` reads and type-asserts a SENDACK reply. The model leaves out that read and that assertion.
- **Values the client takes from outside.** `util.GenUUID` becomes the `clientMsgNo` argument of `SendMessage`. The CONNECT packet's fields (version, device flag, clock, uid, token) come from options and the clock. They are carried as the opaque `connectBody`.
- **CONNECT and DISCONNECT bodies.** Their codecs are in a file that is not part of this model. Frames of these types are `Other` packets holding the header and the raw body.
- **Client.Client.Connect:** the error branch of `sendPacket` for CONNECT is unreachable, because CONNECT has a registered encoder. The model writes that frame unconditionally.
- **Decoding.ReadBinary:** a negative int16 length makes Go's `make` panic. The model returns the `NegativeSize` error instead.
- **Index-out-of-range panics.** `decodeFramer` on empty data and `decodeLength` running off the end panic in Go. They are preconditions (`FramerReadable`, `LengthReadable`).
- **Addresses.ParseAddr:** in Go, an address with "://" but no ':' after it panics in `pair2[1]`. The `HasPort` precondition excludes that input.
- **Addresses.Lower:** lower-cases ASCII letters only. `strings.ToLower` also maps the rest of Unicode, which the model leaves out.
- **Addresses.ParseInt:** models base 10, sign and range clamping. The error value is dropped, exactly as `parseAddr` drops it. Underscores and base prefixes play no part in base 10.
- **Long strings.** Strings of 2^15 bytes or more wrap negative in the int16 length prefix. The round-trip lemmas require shorter strings for the fields on the wire; the client message number is bounded only above version 1, where it is sent.
- **Long bodies.** A body of 2^32 bytes or more would make the payload-start checks compare against a truncated length. The round-trip lemmas require shorter bodies.
- **Client.Client.SendMessage:** the increasing order of the pending list is guaranteed only while the 64-bit id generator does not wrap. After 2^64 sends the new id can be below ids still pending. The byte counter and the PING count are kept on every path.
- **Other parts of the code.** The option functions in `New` and the `String` formatters are not modelled. The `sync.Pool` buffer reuse has no observable effect and is not modelled either.
- **Callbacks.** These are presence flags. The outcome of `onRecv` is the `callbackFails` argument.
