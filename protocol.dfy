/** The LiMao frame layer: a header byte holding the packet type and four
    flags, a base-128 remaining length for every type but PING and PONG,
    then the body, dispatched to the codec registered for the type. */
module Protocol {
  import opened Bytes
  import opened Frames
  import opened Errors
  import opened Encoding
  import opened Decoding
  import opened SendCodec
  import opened RecvCodec
  import opened SendackCodec
  import opened ConnackCodec
  import opened RecvackCodec
  import opened Packets

  /** The largest remaining length a buffered decode accepts: 1 MiB. */
  const MaxRemainingLength: uint32 := 1024 * 1024

  /** `encodeBool`: a flag as the bit it sets. */
  function EncodeBool(b: bool): int
  {
    if b then 1 else 0
  }

  // ---------------------------------------------------------------------
  // The header byte

  /** `type<<4 | dup<<3 | syncOnce<<2 | redDot<<1 | noPersist`; the bits do
      not overlap, so the OR is a sum. */
  function HeaderByte(t: PacketType, f: Framer): byte
  {
    t * 16 + EncodeBool(f.dup) * 8 + EncodeBool(f.syncOnce) * 4 + EncodeBool(f.redDot) * 2 + EncodeBool(f.noPersist)
  }

  /** The type and flags `decodeFramer` takes from a header byte; the
      remaining length is filled in afterwards. */
  function HeaderFields(b: byte): Framer
  {
    Framer(b / 16, (b / 8) % 2 == 1, (b / 4) % 2 == 1, (b / 2) % 2 == 1, b % 2 == 1, 0)
  }

  lemma DivUnique(v: int, d: int, q: int, rem: int)
    requires d > 0 && 0 <= rem < d && v == q * d + rem
    ensures v / d == q && v % d == rem
  {
    ModUnique(v, d, q, rem);
    assert (v / d - q) * d == 0;
    ZeroFactor(v / d - q, d);
  }

  /** The header byte and its fields determine each other. */
  lemma HeaderByteInverts(t: PacketType, f: Framer)
    ensures HeaderFields(HeaderByte(t, f)) == f.(packetType := t, remainingLength := 0)
  {
    var d, s, r, n := EncodeBool(f.dup), EncodeBool(f.syncOnce), EncodeBool(f.redDot), EncodeBool(f.noPersist);
    var b := HeaderByte(t, f);
    DivUnique(b, 16, t, 8 * d + 4 * s + 2 * r + n);
    DivUnique(b, 8, 2 * t + d, 4 * s + 2 * r + n);
    DivUnique(b / 8, 2, t, d);
    DivUnique(b, 4, 4 * t + 2 * d + s, 2 * r + n);
    DivUnique(b / 4, 2, 2 * t + d, s);
    DivUnique(b, 2, 8 * t + 4 * d + 2 * s + r, n);
    DivUnique(b / 2, 2, 4 * t + 2 * d + s, r);
  }

  lemma HeaderFieldsInverts(b: byte)
    ensures HeaderByte(HeaderFields(b).packetType, HeaderFields(b)) == b
  {
    var h1, x0 := b / 2, b % 2;
    var h2, x1 := h1 / 2, h1 % 2;
    var h3, x2 := h2 / 2, h2 % 2;
    var h4, x3 := h3 / 2, h3 % 2;
    DivUnique(b, 4, h2, 2 * x1 + x0);
    DivUnique(b, 8, h3, 4 * x2 + 2 * x1 + x0);
    DivUnique(b, 16, h4, 8 * x3 + 4 * x2 + 2 * x1 + x0);
  }

  // ---------------------------------------------------------------------
  // The remaining length

  /** `encodeVariable`: the base-128 digits of `size`, least significant
      first; zero has none. */
  method EncodeVariable(size: uint32) returns (ret: seq<byte>)
    ensures ret == VarDigits(size)
  {
    ret := [];
    var rest := size;
    while rest > 0
      invariant 0 <= rest && ret + VarDigits(rest) == VarDigits(size)
    {
      var digit := rest % 0x80;
      rest := rest / 0x80;
      if rest > 0 {
        digit := digit + 0x80;
      }
      ret := ret + [digit];
    }
  }

  /** The bytes `decodeLength` indexes from position `i` on exist: it reads
      one byte per iteration until a byte without the continuation bit, and
      at most four. Go indexes past the end otherwise. */
  predicate LengthReadableFrom(d: seq<byte>, i: nat)
    decreases 4 - i
  {
    i >= 4 || (i < |d| && (d[i] >= 0x80 ==> LengthReadableFrom(d, i + 1)))
  }

  predicate LengthReadable(d: seq<byte>)
  {
    LengthReadableFrom(d, 0)
  }

  /** How many bytes `decodeLength` reads, counting from position `i`. */
  function LengthEnd(d: seq<byte>, i: nat): (n: nat)
    requires i <= 4 && LengthReadableFrom(d, i)
    ensures i <= n <= 4
    ensures i < 4 ==> i < n <= |d|
    ensures i < n < 4 ==> d[n - 1] < 0x80
    ensures forall j :: i <= j < n - 1 ==> d[j] >= 0x80
    decreases 4 - i
  {
    if i == 4 then 4
    else if d[i] < 0x80 then i + 1
    else LengthEnd(d, i + 1)
  }

  datatype LengthField = LengthField(value: uint32, size: nat)

  /** What `decodeLength` returns: the value of the digits it read, and
      how many bytes the length takes, which is 5 when all four digits
      read carry the continuation bit. */
  function LengthOf(d: seq<byte>): (r: LengthField)
    requires LengthReadable(d)
    ensures 1 <= r.size <= 5 && r.value < 0x1000_0000
  {
    var n := LengthEnd(d, 0);
    LengthDigitsBound(d[..n]);
    LengthField(LEValue(d[..n]), if d[n - 1] >= 0x80 then 5 else n)
  }

  lemma LengthDigitsBound(s: seq<byte>)
    requires |s| <= 4
    ensures LEValue(s) < 0x1000_0000
  {
    LEValueBound(s);
    PowValues();
    Pow128Monotone(|s|, 4);
  }

  lemma {:induction false} Pow128Monotone(a: nat, b: nat)
    requires a <= b
    ensures Pow128(a) <= Pow128(b)
    decreases b
  {
    if a < b {
      Pow128Monotone(a, b - 1);
    }
  }

  /** `decodeLength`: each digit's low seven bits are shifted into place
      (`multiplier` is 7 times `offset`, so the shift is a product with
      128^offset, and the digits occupy disjoint bits, so the OR is a sum)
      until a byte without the continuation bit, or until four digits. */
  method DecodeLength(data: seq<byte>) returns (rLength: uint32, lenLen: uint32)
    requires LengthReadable(data)
    ensures LengthField(rLength, lenLen) == LengthOf(data)
  {
    rLength := 0;
    var multiplier := 0;
    var offset := 0;
    while multiplier < 27
      invariant offset <= 4 && multiplier == 7 * offset
      invariant offset <= |data| && LengthReadableFrom(data, offset)
      invariant forall j :: 0 <= j < offset ==> data[j] >= 0x80
      invariant rLength == LEValue(data[..offset])
      decreases 27 - multiplier
    {
      var digit := data[offset];
      assert data[..offset + 1] == data[..offset] + [digit];
      LEValueSnoc(data[..offset], digit);
      LengthDigitsBound(data[..offset + 1]);
      rLength := rLength + (digit % 128) * Pow128(offset);
      if digit < 0x80 {
        LengthEndAt(data, 0, offset);
        return rLength, offset + 1;
      }
      multiplier := multiplier + 7;
      offset := offset + 1;
    }
    LengthEndFour(data, 0);
    lenLen := offset + 1;
  }

  lemma {:induction false} LengthEndAt(d: seq<byte>, i: nat, t: nat)
    requires i <= t < 4 && t < |d| && d[t] < 0x80
    requires forall j :: i <= j < t ==> d[j] >= 0x80
    ensures LengthReadableFrom(d, i) && LengthEnd(d, i) == t + 1
    decreases t - i
  {
    if i < t {
      LengthEndAt(d, i + 1, t);
    }
  }

  lemma {:induction false} LengthEndFour(d: seq<byte>, i: nat)
    requires i <= 4 <= |d|
    requires forall j :: i <= j < 4 ==> d[j] >= 0x80
    ensures LengthReadableFrom(d, i) && LengthEnd(d, i) == 4
    decreases 4 - i
  {
    if i < 4 {
      LengthEndFour(d, i + 1);
    }
  }

  /** For 1 <= n < 2^28 the length decodes from its own digits, whatever
      follows them, and takes as many bytes as there are digits. */
  lemma LengthRoundTrip(n: int, rest: seq<byte>)
    requires 1 <= n < 0x1000_0000
    ensures LengthReadable(VarDigits(n) + rest)
    ensures LengthOf(VarDigits(n) + rest) == LengthField(n, |VarDigits(n)|)
  {
    var digits := VarDigits(n);
    var d := digits + rest;
    PowValues();
    VarDigitsLength(n, 4);
    VarDigitsShape(n);
    VarDigitsValue(n);
    var k := |digits|;
    assert forall j :: 0 <= j < k - 1 ==> d[j] == digits[j];
    LengthEndAt(d, 0, k - 1);
    assert d[..k] == digits;
  }

  /** Two inputs that agree on the bytes of the length field read the
      same length. */
  lemma LengthSame(d: seq<byte>, e: seq<byte>)
    requires LengthReadable(d)
    requires LengthEnd(d, 0) <= |e| && e[..LengthEnd(d, 0)] == d[..LengthEnd(d, 0)]
    ensures LengthReadable(e) && LengthOf(e) == LengthOf(d)
  {
    var n := LengthEnd(d, 0);
    forall j | 0 <= j < n
      ensures e[j] == d[j]
    {
      assert e[j] == e[..n][j];
    }
    if d[n - 1] < 0x80 {
      LengthEndAt(e, 0, n - 1);
    } else {
      LengthEndFour(e, 0);
    }
  }

  /** The length field is read from its own bytes only, so whatever
      follows them does not matter. */
  lemma LengthPrefix(d: seq<byte>, extra: seq<byte>)
    requires LengthReadable(d)
    ensures LengthReadable(d + extra) && LengthOf(d + extra) == LengthOf(d)
  {
    var n := LengthEnd(d, 0);
    assert (d + extra)[..n] == d[..n];
    LengthSame(d, d + extra);
  }

  /** Cutting the input anywhere after the length field changes nothing;
      the field is at most four bytes. */
  lemma LengthCut(d: seq<byte>, k: nat)
    requires LengthReadable(d) && LengthEnd(d, 0) <= k <= |d|
    ensures LengthReadable(d[..k]) && LengthOf(d[..k]) == LengthOf(d)
  {
    var n := LengthEnd(d, 0);
    assert d[..k][..n] == d[..n];
    LengthSame(d, d[..k]);
  }

  // ---------------------------------------------------------------------
  // The frame header

  /** `encodeFramer`: PING and PONG are the type alone with no flags and no
      length; every other type has its flags and the length's digits. */
  function FramerBytes(p: Packet, remainingLength: uint32): (r: seq<byte>)
  {
    var t := GetPacketType(p);
    if t == PING || t == PONG then [t * 16]
    else [HeaderByte(t, Header(p))] + VarDigits(remainingLength)
  }

  method EncodeFramer(p: Packet, remainingLength: uint32) returns (header: seq<byte>)
    ensures header == FramerBytes(p, remainingLength)
  {
    var t := GetPacketType(p);
    if t == PING || t == PONG {
      return [t as int * 16];
    }
    var typeAndFlags := EncodeBool(Header(p).dup) * 8 + EncodeBool(Header(p).syncOnce) * 4 +
                        EncodeBool(Header(p).redDot) * 2 + EncodeBool(Header(p).noPersist);
    header := [t * 16 + typeAndFlags];
    var varHeader := EncodeVariable(remainingLength);
    header := header + varHeader;
  }

  /** The input `decodeFramer` can index: a header byte and, unless it is a
      PING or PONG, the bytes of the length. */
  predicate FramerReadable(data: seq<byte>)
  {
    |data| >= 1 && (IsControl(data[0] / 16) || LengthReadable(data[1..]))
  }

  /** `decodeFramer`: the header's fields and, for types other than PING
      and PONG, the remaining length and the size of its field. */
  function DecodeFramer(data: seq<byte>): (r: (Framer, nat))
    requires FramerReadable(data)
    ensures r.0.packetType == data[0] / 16
    ensures IsControl(r.0.packetType) ==> r.1 == 0
  {
    var f := HeaderFields(data[0]);
    if f.packetType == PING || f.packetType == PONG then (f, 0)
    else
      var l := LengthOf(data[1..]);
      (f.(remainingLength := l.value), l.size)
  }

  // ---------------------------------------------------------------------
  // The registries

  /** The body `packetEncodeMap` produces, or the error for a type without
      an encoder. CONNECT and DISCONNECT bodies come from codecs that are
      not part of this model and are taken as given. */
  function BodyEncoding(p: Packet, version: byte): (r: Result<seq<byte>>)
    ensures r.Ok? <==> Registered(GetPacketType(p))
  {
    match p
    case Connack(c) => Ok(ConnackBody(c))
    case Send(s) => Ok(SendBody(s, version))
    case Sendack(s) => Ok(SendackBody(s))
    case Recv(r) => Ok(RecvBody(r, version))
    case Recvack(r) => Ok(RecvackBody(r))
    case Ping => Err(Unsupported(PING))
    case Pong => Err(Unsupported(PONG))
    case Other(h, body) => if Registered(h.packetType) then Ok(body) else Err(Unsupported(h.packetType))
  }

  method EncodeBody(p: Packet, version: byte) returns (r: Result<seq<byte>>)
    ensures r == BodyEncoding(p, version)
  {
    match p
    case Connack(c) => { var b := EncodeConnack(c, version); r := Ok(b); }
    case Send(s) => { var b := EncodeSend(s, version); r := Ok(b); }
    case Sendack(s) => { var b := EncodeSendack(s, version); r := Ok(b); }
    case Recv(rv) => { var b := EncodeRecv(rv, version); r := Ok(b); }
    case Recvack(rv) => { var b := EncodeRecvack(rv, version); r := Ok(b); }
    case Ping => { r := Err(Unsupported(PING)); }
    case Pong => { r := Err(Unsupported(PONG)); }
    case Other(h, body) => {
      if Registered(h.packetType) {
        r := Ok(body);
      } else {
        r := Err(Unsupported(h.packetType));
      }
    }
  }

  /** The packet `packetDecodeMap` builds from a body, for a registered
      type, or the body decoder's error. */
  function BodyDecoding(f: Framer, body: seq<byte>, version: byte): (r: Result<Packet>)
    requires Registered(f.packetType)
    ensures r.Ok? ==> WellTyped(r.value) && GetPacketType(r.value) == f.packetType && Header(r.value) == f
  {
    var t := f.packetType;
    if t == CONNACK then
      match ParseConnack(f, body, version)
      case Ok(c) => Ok(Connack(c))
      case Err(e) => Err(e)
    else if t == SEND then
      match ParseSend(f, body, version)
      case Ok(s) => Ok(Send(s))
      case Err(e) => Err(e)
    else if t == SENDACK then
      match ParseSendack(f, body, version)
      case Ok(s) => Ok(Sendack(s))
      case Err(e) => Err(e)
    else if t == RECV then
      match ParseRecv(f, body, version)
      case Ok(r) => Ok(Recv(r))
      case Err(e) => Err(e)
    else if t == RECVACK then
      match ParseRecvack(f, body, version)
      case Ok(r) => Ok(Recvack(r))
      case Err(e) => Err(e)
    else Ok(Other(f, body))
  }

  // ---------------------------------------------------------------------
  // Whole packets

  /** What `EncodePacket` returns. The body length goes into the header
      truncated to 32 bits. */
  function PacketEncoding(p: Packet, version: byte): (r: Result<seq<byte>>)
    ensures IsControl(GetPacketType(p)) ==> r == Ok([GetPacketType(p) * 16])
    ensures r.Err? <==> !IsControl(GetPacketType(p)) && !Registered(GetPacketType(p))
    ensures r.Err? ==> r.error == Unsupported(GetPacketType(p))
  {
    var t := GetPacketType(p);
    if t == PING || t == PONG then Ok(FramerBytes(p, 0))
    else
      match BodyEncoding(p, version)
      case Err(e) => Err(e)
      case Ok(body) => Ok(FramerBytes(p, ToUint32(|body|)) + body)
  }

  method EncodePacket(p: Packet, version: byte) returns (r: Result<seq<byte>>)
    ensures r == PacketEncoding(p, version)
  {
    var t := GetPacketType(p);
    var enc := new Encoder();
    if t != PING && t != PONG {
      var body := EncodeBody(p, version);
      if body.Err? {
        return Err(body.error);
      }
      var header := EncodeFramer(p, ToUint32(|body.value|));
      enc.WriteBytes(header);
      assert enc.buf == header;
      enc.WriteBytes(body.value);
    } else {
      var header := EncodeFramer(p, 0);
      enc.WriteBytes(header);
      assert enc.buf == header;
    }
    var bytes := enc.Bytes();
    return Ok(bytes);
  }

  /** The three outcomes of a buffered decode: a packet and the bytes it
      took, too little data yet (no packet, nothing consumed, no error),
      or an error with nothing consumed. */
  datatype Decoded = Frame(packet: Packet, consumed: nat) | Incomplete | Failed(error: Error)

  /** Where the first steps of a buffered decode lead: a PING or PONG
      header, a remaining length above the maximum, a body that has not
      fully arrived, or the header and the bounds of the body. */
  datatype Framing = Control(packetType: PacketType) | TooLarge | Short | Body(header: Framer, start: nat, end: nat)

  /** `DecodePacket` up to the body: the header, the maximum-length check
      and the check that the whole frame is there. */
  function Locate(data: seq<byte>): (r: Framing)
    requires FramerReadable(data)
    ensures r.Control? <==> IsControl(data[0] / 16)
    ensures r.Control? ==> r.packetType == data[0] / 16
    ensures r.Body? ==> 1 <= r.start <= r.end <= |data| && r.header.packetType == data[0] / 16
    ensures r.Body? <==>
      && !IsControl(data[0] / 16) && LengthOf(data[1..]).value <= MaxRemainingLength
      && 1 + LengthOf(data[1..]).size + LengthOf(data[1..]).value <= |data|
    ensures r.Body? ==>
      && r.header == HeaderFields(data[0]).(remainingLength := LengthOf(data[1..]).value)
      && r.start == 1 + LengthOf(data[1..]).size && r.end == r.start + LengthOf(data[1..]).value
  {
    var (f, lenLen) := DecodeFramer(data);
    if f.packetType == PING || f.packetType == PONG then Control(f.packetType)
    else if f.remainingLength > MaxRemainingLength then TooLarge
    else
      var msgLen := f.remainingLength + 1 + lenLen;
      if |data| < msgLen then Short
      else Body(f, 1 + lenLen, msgLen)
  }

  /** `DecodePacket` over a buffer that may hold a partial frame or more
      than one frame. */
  function DecodePacket(data: seq<byte>, version: byte): (r: Decoded)
    requires FramerReadable(data)
    ensures r.Frame? ==> 1 <= r.consumed <= |data| && WellTyped(r.packet)
    ensures data[0] / 16 == PING ==> r == Frame(Ping, 1)
    ensures data[0] / 16 == PONG ==> r == Frame(Pong, 1)
    ensures !IsControl(data[0] / 16) ==>
      (r == Failed(Oversize) <==> LengthOf(data[1..]).value > MaxRemainingLength)
    ensures !IsControl(data[0] / 16) && LengthOf(data[1..]).value <= MaxRemainingLength ==>
      (r.Incomplete? <==> |data| < 1 + LengthOf(data[1..]).size + LengthOf(data[1..]).value)
    ensures r.Failed? && r.error.Unsupported? ==> !Registered(data[0] / 16) && r.error.packetType == data[0] / 16
    ensures r.Frame? && !IsControl(data[0] / 16) ==>
      r.consumed == 1 + LengthOf(data[1..]).size + LengthOf(data[1..]).value &&
      GetPacketType(r.packet) == data[0] / 16 &&
      Header(r.packet) == HeaderFields(data[0]).(remainingLength := LengthOf(data[1..]).value)
    // A whole frame within the maximum: a type without a decoder is
    // unsupported, and otherwise the body decoder's verdict decides, its
    // error wrapped with the packet type.
    ensures Locate(data).Body? && !Registered(data[0] / 16) ==> r == Failed(Unsupported(data[0] / 16))
    ensures Locate(data).Body? && Registered(data[0] / 16) ==>
      var (f, start, end) := (Locate(data).header, Locate(data).start, Locate(data).end);
      && (BodyDecoding(f, data[start..end], version).Err? ==>
            r == Failed(PacketError(data[0] / 16, BodyDecoding(f, data[start..end], version).error)))
      && (BodyDecoding(f, data[start..end], version).Ok? ==>
            r == Frame(BodyDecoding(f, data[start..end], version).value, end))
  {
    match Locate(data)
    case Control(t) => Frame(if t == PING then Ping else Pong, 1)
    case TooLarge => Failed(Oversize)
    case Short => Incomplete
    case Body(f, start, end) =>
      if !Registered(f.packetType) then Failed(Unsupported(f.packetType))
      else
        match BodyDecoding(f, data[start..end], version)
        case Err(e) => Failed(PacketError(f.packetType, e))
        case Ok(p) => Frame(p, end)
  }

  // ---------------------------------------------------------------------
  // Properties of whole frames

  /** A decode that did not ask for more data gives the same answer when
      more bytes follow: the next frame is left alone. */
  lemma DecodeIgnoresTrailing(data: seq<byte>, extra: seq<byte>, version: byte)
    requires FramerReadable(data) && !DecodePacket(data, version).Incomplete?
    ensures FramerReadable(data + extra)
    ensures DecodePacket(data + extra, version) == DecodePacket(data, version)
  {
    LocateIgnoresTrailing(data, extra);
    var l := Locate(data);
    if l.Body? {
      assert (data + extra)[l.start..l.end] == data[l.start..l.end];
    }
  }

  lemma LocateIgnoresTrailing(data: seq<byte>, extra: seq<byte>)
    requires FramerReadable(data) && !Locate(data).Short?
    ensures FramerReadable(data + extra) && Locate(data + extra) == Locate(data)
  {
    var e := data + extra;
    assert e[0] == data[0];
    if !IsControl(data[0] / 16) {
      assert e[1..] == data[1..] + extra;
      LengthPrefix(data[1..], extra);
    }
  }

  /** A frame cut anywhere between the end of its length field and its
      last byte is incomplete, not an error. */
  lemma DecodeCutFrame(data: seq<byte>, k: nat, version: byte)
    requires FramerReadable(data) && DecodePacket(data, version).Frame? && !IsControl(data[0] / 16)
    requires 1 + LengthOf(data[1..]).size <= k < DecodePacket(data, version).consumed
    ensures FramerReadable(data[..k]) && DecodePacket(data[..k], version) == Incomplete
  {
    LocateCut(data, k);
  }

  lemma LocateCut(data: seq<byte>, k: nat)
    requires FramerReadable(data) && Locate(data).Body?
    requires 1 + LengthOf(data[1..]).size <= k < Locate(data).end
    ensures FramerReadable(data[..k]) && Locate(data[..k]) == Short
  {
    var c := data[..k];
    assert c[0] == data[0];
    assert c[1..] == data[1..][..k - 1];
    LengthCut(data[1..], k - 1);
  }

  /** The header a frame arrives with: the struct's packet type, the flags
      of its embedded header and the length of its body. */
  function WireHeader(p: Packet, bodyLength: int): Framer
    requires !p.Ping? && !p.Pong?
  {
    Header(p).(packetType := GetPacketType(p), remainingLength := ToUint32(bodyLength))
  }

  /** What a packet looks like after a trip over the wire: the frame's
      header replaces the embedded one, a sequence number keeps its low 32
      bits, and the message numbers that are not sent come back empty. */
  function PacketOnWire(p: Packet, version: byte, bodyLength: int): Packet
  {
    match p
    case Ping => Ping
    case Pong => Pong
    case Connack(c) => Connack(c.(header := WireHeader(p, bodyLength)))
    case Send(s) => Send(SendOnWire(WireHeader(p, bodyLength), s, version))
    case Sendack(s) =>
      Sendack(s.(header := WireHeader(p, bodyLength), clientSeq := ToUint32(s.clientSeq), clientMsgNo := []))
    case Recv(r) => Recv(RecvOnWire(WireHeader(p, bodyLength), r, version))
    case Recvack(r) => Recvack(r.(header := WireHeader(p, bodyLength)))
    case Other(_, body) => Other(WireHeader(p, bodyLength), body)
  }

  /** The strings a packet puts on the wire at this version fit their
      signed 16-bit length prefixes; the client message number goes on
      the wire only above version 1. */
  predicate StringsFit(p: Packet, version: byte)
  {
    match p
    case Send(s) => (version > 1 ==> |s.clientMsgNo| < 0x8000) && |s.channelId| < 0x8000
    case Recv(r) => (version > 1 ==> |r.clientMsgNo| < 0x8000) && |r.channelId| < 0x8000 && |r.fromUid| < 0x8000
    case _ => true
  }

  /** Each body codec gives its packet back under the header the frame
      carries. */
  lemma BodyRoundTrip(p: Packet, version: byte)
    requires WellTyped(p) && StringsFit(p, version) && !IsControl(GetPacketType(p)) && Registered(GetPacketType(p))
    requires |BodyEncoding(p, version).value| < TwoTo32
    ensures BodyDecoding(WireHeader(p, |BodyEncoding(p, version).value|), BodyEncoding(p, version).value, version)
      == Ok(PacketOnWire(p, version, |BodyEncoding(p, version).value|))
  {
    var body := BodyEncoding(p, version).value;
    var h := WireHeader(p, |body|);
    assert body + [] == body;
    match p
    case Connack(c) => ParseConnackInverts(h, c, version, []);
    case Send(sp) => ParseSendInverts(h, sp, version);
    case Sendack(sa) => ParseSendackInverts(h, sa, version, []);
    case Recv(rp) => ParseRecvInverts(h, rp, version);
    case Recvack(ra) => ParseRecvackInverts(h, ra, version, []);
    case Other(_, _) =>
  }

  /** The bytes of a frame of a type other than PING and PONG: its header
      decodes to the frame's header, and the body sits right after the
      length field. */
  lemma FrameLayout(p: Packet, body: seq<byte>, extra: seq<byte>)
    requires !IsControl(GetPacketType(p)) && 1 <= |body| <= MaxRemainingLength
    ensures FramerReadable(FramerBytes(p, |body|) + body + extra)
    ensures Locate(FramerBytes(p, |body|) + body + extra) ==
      Body(WireHeader(p, |body|), |FramerBytes(p, |body|)|, |FramerBytes(p, |body|)| + |body|)
    ensures (FramerBytes(p, |body|) + body + extra)[|FramerBytes(p, |body|)|..|FramerBytes(p, |body|)| + |body|] == body
  {
    FrameAt(GetPacketType(p), Header(p), body, extra);
  }

  lemma FrameAt(t: PacketType, h: Framer, body: seq<byte>, extra: seq<byte>)
    requires !IsControl(t) && 1 <= |body| <= MaxRemainingLength
    ensures var data := [HeaderByte(t, h)] + VarDigits(|body|) + body + extra;
      && FramerReadable(data)
      && Locate(data) == Body(h.(packetType := t, remainingLength := |body|), 1 + |VarDigits(|body|)|,
                              1 + |VarDigits(|body|)| + |body|)
      && data[1 + |VarDigits(|body|)|..1 + |VarDigits(|body|)| + |body|] == body
  {
    var digits := VarDigits(|body|);
    var data := [HeaderByte(t, h)] + digits + body + extra;
    HeaderByteInverts(t, h);
    assert data[0] == HeaderByte(t, h);
    assert data[1..] == digits + (body + extra);
    LengthRoundTrip(|body|, body + extra);
    LocateFramer(data);
  }

  /** `Locate` past the header: a complete frame whose remaining length
      is within the maximum has its body between the length field and the
      frame's end. */
  lemma LocateFramer(data: seq<byte>)
    requires FramerReadable(data) && !IsControl(DecodeFramer(data).0.packetType)
    requires DecodeFramer(data).0.remainingLength <= MaxRemainingLength
    requires 1 + DecodeFramer(data).1 + DecodeFramer(data).0.remainingLength <= |data|
    ensures Locate(data) == Body(DecodeFramer(data).0, 1 + DecodeFramer(data).1,
                                 1 + DecodeFramer(data).1 + DecodeFramer(data).0.remainingLength)
  {
  }

  /** A body that decodes makes the whole frame decode, consuming the
      bytes up to the body's end. */
  lemma DecodeLocated(data: seq<byte>, version: byte, f: Framer, start: nat, end: nat, q: Packet)
    requires FramerReadable(data) && Locate(data) == Body(f, start, end) && Registered(f.packetType)
    requires BodyDecoding(f, data[start..end], version) == Ok(q)
    ensures DecodePacket(data, version) == Frame(q, end)
  {
  }

  /** The frames `EncodePacket` writes: those of PING and PONG and of
      every registered type whose strings fit and whose body is between
      1 byte and the maximum remaining length. An empty body is not one:
      its length field is empty, so the decoder takes the first body byte,
      or the next frame, for the length. */
  predicate Encodable(p: Packet, version: byte)
  {
    && WellTyped(p) && StringsFit(p, version)
    && (IsControl(GetPacketType(p)) || Registered(GetPacketType(p)))
    && (!IsControl(GetPacketType(p)) ==> 1 <= |BodyEncoding(p, version).value| <= MaxRemainingLength)
  }

  /** The length of a packet's body, and zero for PING and PONG. */
  function BodyLength(p: Packet, version: byte): nat
  {
    if BodyEncoding(p, version).Ok? then |BodyEncoding(p, version).value| else 0
  }

  /** Decoding what `EncodePacket` writes gives the packet back, as it
      looks after the trip, and consumes exactly its bytes, whatever
      follows them. */
  lemma PacketRoundTrip(p: Packet, version: byte, extra: seq<byte>)
    requires Encodable(p, version)
    ensures PacketEncoding(p, version).Ok?
    ensures FramerReadable(PacketEncoding(p, version).value + extra)
    ensures DecodePacket(PacketEncoding(p, version).value + extra, version) ==
      Frame(PacketOnWire(p, version, BodyLength(p, version)), |PacketEncoding(p, version).value|)
  {
    if IsControl(GetPacketType(p)) {
      ControlRoundTrip(p, version, extra);
    } else {
      FrameRoundTrip(p, version, extra);
    }
  }
  /** The Connack of the packet tests, built with a zero header, encoded as
      a frame at version 1 and decoded again: the whole frame is consumed
      and a Connack comes back with its time difference of 12345 and the
      success reason code. */
  lemma ConnackFrameExample()
    ensures var p := Connack(ConnackPacket(Framer(0, false, false, false, false, 0), 12345, ReasonSuccess));
      && PacketEncoding(p, 1).Ok?
      && var r := DecodePacket(PacketEncoding(p, 1).value, 1);
      && r.Frame? && r.consumed == |PacketEncoding(p, 1).value| && r.packet.Connack?
      && r.packet.connack.timeDiff == 12345 && r.packet.connack.reasonCode == ReasonSuccess
  {
    var p := Connack(ConnackPacket(Framer(0, false, false, false, false, 0), 12345, ReasonSuccess));
    assert |BodyEncoding(p, 1).value| == 9;
    PacketRoundTrip(p, 1, []);
    assert PacketEncoding(p, 1).value + [] == PacketEncoding(p, 1).value;
  }


  lemma ControlRoundTrip(p: Packet, version: byte, extra: seq<byte>)
    requires WellTyped(p) && IsControl(GetPacketType(p))
    ensures PacketEncoding(p, version) == Ok([GetPacketType(p) * 16])
    ensures FramerReadable([GetPacketType(p) * 16] + extra)
    ensures DecodePacket([GetPacketType(p) * 16] + extra, version) == Frame(p, 1)
  {
    var data := [GetPacketType(p) as int * 16] + extra;
    assert data[0] / 16 == GetPacketType(p);
  }

  lemma FrameRoundTrip(p: Packet, version: byte, extra: seq<byte>)
    requires Encodable(p, version) && !IsControl(GetPacketType(p))
    ensures PacketEncoding(p, version).Ok?
    ensures FramerReadable(PacketEncoding(p, version).value + extra)
    ensures DecodePacket(PacketEncoding(p, version).value + extra, version) ==
      Frame(PacketOnWire(p, version, BodyLength(p, version)), |PacketEncoding(p, version).value|)
  {
    var body := BodyEncoding(p, version).value;
    BodyRoundTrip(p, version);
    FrameDecodes(p, version, body, extra, PacketOnWire(p, version, |body|));
  }

  /** A frame whose body decodes decodes to the body's packet. */
  lemma FrameDecodes(p: Packet, version: byte, body: seq<byte>, extra: seq<byte>, q: Packet)
    requires !IsControl(GetPacketType(p)) && Registered(GetPacketType(p)) && 1 <= |body| <= MaxRemainingLength
    requires BodyDecoding(WireHeader(p, |body|), body, version) == Ok(q)
    ensures FramerReadable(FramerBytes(p, |body|) + body + extra)
    ensures DecodePacket(FramerBytes(p, |body|) + body + extra, version) == Frame(q, |FramerBytes(p, |body|)| + |body|)
  {
    var header := FramerBytes(p, |body|);
    FrameLayout(p, body, extra);
    DecodeLocated(header + body + extra, version, WireHeader(p, |body|), |header|, |header| + |body|, q);
  }

  /** Every frame `EncodePacket` writes starts with a byte whose high
      nibble is the packet's type. */
  lemma EncodedType(p: Packet, version: byte)
    requires PacketEncoding(p, version).Ok?
    ensures |PacketEncoding(p, version).value| >= 1
    ensures PacketEncoding(p, version).value[0] / 16 == GetPacketType(p)
  {
    var t := GetPacketType(p);
    if !IsControl(t) {
      HeaderByteInverts(t, Header(p));
    }
  }
}
