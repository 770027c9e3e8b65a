/** The LiMao `Encoder`: an append-only byte buffer with writers for
    big-endian integers, length-prefixed binaries and strings, raw bytes
    and base-128 variable-length integers. Go strings are byte strings,
    so a string is a `seq<byte>` here. Go's `int` parameters are taken as
    unbounded integers; only their low bytes ever reach the buffer. */
module Encoding {
  import opened Bytes

  /** A binary or string value on the wire: its length as two big-endian
      bytes (only the low 16 bits of the length survive), then its bytes. */
  function BinaryBytes(b: seq<byte>): (r: seq<byte>)
    ensures |r| == 2 + |b|
  {
    BigEndian(|b|, 2) + b
  }

  class Encoder {
    /** The contents of the underlying `bytes.Buffer`. */
    var buf: seq<byte>

    constructor ()
      ensures buf == []
    {
      buf := [];
    }

    method Bytes() returns (r: seq<byte>)
      ensures r == buf
    {
      r := buf;
    }

    method Len() returns (n: int)
      ensures n == |buf|
    {
      n := |buf|;
    }

    method WriteByte(b: byte)
      modifies this
      ensures buf == old(buf) + [b]
    {
      buf := buf + [b];
    }

    /** `byte(i)`: the low eight bits of `i`. */
    method WriteInt(i: int)
      modifies this
      ensures buf == old(buf) + BigEndian(i, 1)
    {
      buf := buf + [i % 0x100];
    }

    method WriteUint8(i: byte)
      modifies this
      ensures buf == old(buf) + [i]
    {
      WriteInt(i);
    }

    /** Bits 15-8 and then bits 7-0 of `i`; higher bits are dropped. */
    method WriteInt16(i: int)
      modifies this
      ensures buf == old(buf) + BigEndian(i, 2)
    {
      BigEndian2Bytes(i);
      buf := buf + [(i / 0x100) % 0x100, i % 0x100];
    }

    method WriteUint16(i: uint16)
      modifies this
      ensures buf == old(buf) + BigEndian(i, 2)
    {
      WriteInt16(i);
    }

    method WriteInt32(i: int32)
      modifies this
      ensures buf == old(buf) + BigEndian(i, 4)
    {
      BigEndian4Bytes(i);
      buf := buf + [(i / 0x100_0000) % 0x100, (i / 0x1_0000) % 0x100, (i / 0x100) % 0x100, i % 0x100];
    }

    method WriteInt64(i: int64)
      modifies this
      ensures buf == old(buf) + BigEndian(i, 8)
    {
      BigEndian8Bytes(i);
      buf := buf + [(i / 0x100_0000_0000_0000) % 0x100, (i / 0x1_0000_0000_0000) % 0x100,
                    (i / 0x100_0000_0000) % 0x100, (i / 0x1_0000_0000) % 0x100,
                    (i / 0x100_0000) % 0x100, (i / 0x1_0000) % 0x100, (i / 0x100) % 0x100, i % 0x100];
    }

    method WriteUint64(i: uint64)
      modifies this
      ensures buf == old(buf) + BigEndian(i, 8)
    {
      BigEndian8Bytes(i);
      buf := buf + [(i / 0x100_0000_0000_0000) % 0x100, (i / 0x1_0000_0000_0000) % 0x100,
                    (i / 0x100_0000_0000) % 0x100, (i / 0x1_0000_0000) % 0x100,
                    (i / 0x100_0000) % 0x100, (i / 0x1_0000) % 0x100, (i / 0x100) % 0x100, i % 0x100];
    }

    method WriteUint32(i: uint32)
      modifies this
      ensures buf == old(buf) + BigEndian(i, 4)
    {
      BigEndian4Bytes(i);
      buf := buf + [(i / 0x100_0000) % 0x100, (i / 0x1_0000) % 0x100, (i / 0x100) % 0x100, i % 0x100];
    }

    method WriteString(str: seq<byte>)
      modifies this
      ensures buf == old(buf) + BinaryBytes(str)
    {
      WriteBinary(str);
    }

    method WriteStringAll(str: seq<byte>)
      modifies this
      ensures buf == old(buf) + str
    {
      WriteBytes(str);
    }

    /** An empty value is written as its zero length alone. */
    method WriteBinary(b: seq<byte>)
      modifies this
      ensures buf == old(buf) + BinaryBytes(b)
    {
      if |b| == 0 {
        WriteInt16(0);
      } else {
        WriteInt16(|b|);
        WriteBytes(b);
      }
    }

    method WriteBytes(b: seq<byte>)
      modifies this
      ensures buf == old(buf) + b
    {
      buf := buf + b;
    }

    /** The base-128 digits of a positive `v`; nothing for `v <= 0`. */
    method WriteVariable(v: int)
      modifies this
      ensures buf == old(buf) + (if v > 0 then VarDigits(v) else [])
    {
      var b: seq<byte> := [];
      var rest := v;
      while rest > 0
        invariant v > 0 ==> rest >= 0 && b + VarDigits(rest) == VarDigits(v)
        invariant v <= 0 ==> b == [] && rest == v
      {
        var digit := rest % 0x80;
        rest := rest / 0x80;
        if rest > 0 {
          digit := digit + 0x80;
        }
        b := b + [digit];
      }
      buf := buf + b;
    }
  }
}
