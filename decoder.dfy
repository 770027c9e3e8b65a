/** The LiMao `Decoder`: a cursor over a byte string (a `bytes.Reader`)
    with readers for big-endian integers, length-prefixed binaries and
    strings, the rest of the input, and base-128 variable-length integers.

    Each reader is specified by a pure function from the data and the
    cursor to a `Step`: the value or the error, and where the cursor is
    left. The cursor moves even when a read fails part-way, exactly as the
    underlying reader moves it. */
module Decoding {
  import opened Bytes
  import opened Errors

  datatype Step<T> = Step(result: Result<T>, pos: nat)

  function Min(a: nat, b: nat): nat
  {
    if a <= b then a else b
  }

  /** The error of a read into a buffer of `want` bytes that does not fit:
      EOF when the cursor is already at the end, otherwise the count of the
      bytes it did copy. Such a read leaves the cursor at the end. */
  function ShortError(data: seq<byte>, pos: nat, want: nat): Error
  {
    if pos == |data| then EOF else ShortRead(|data| - pos, want)
  }

  /** A read into a buffer of `want` bytes followed by the check that the
      buffer was filled. */
  function Fill(data: seq<byte>, pos: nat, want: nat): (s: Step<seq<byte>>)
    requires pos <= |data|
    ensures pos <= s.pos <= |data|
  {
    if pos + want <= |data| then Step(Ok(data[pos..pos + want]), pos + want)
    else Step(Err(ShortError(data, pos, want)), |data|)
  }

  /** The unsigned value of the 2, 4 or 8 bytes at `pos`, most significant
      first, as the Go readers assemble it with shifts. */
  function Word16(data: seq<byte>, pos: nat): (r: nat)
    requires pos + 2 <= |data|
    ensures r < 0x1_0000
  {
    data[pos] as int * 0x100 + data[pos + 1]
  }

  function Word32(data: seq<byte>, pos: nat): (r: nat)
    requires pos + 4 <= |data|
    ensures r < TwoTo32
  {
    data[pos] as int * 0x100_0000 + data[pos + 1] as int * 0x1_0000 + data[pos + 2] as int * 0x100 + data[pos + 3]
  }

  function Word64(data: seq<byte>, pos: nat): (r: nat)
    requires pos + 8 <= |data|
    ensures r < TwoTo64
  {
    data[pos] as int * 0x100_0000_0000_0000 + data[pos + 1] as int * 0x1_0000_0000_0000 +
    data[pos + 2] as int * 0x100_0000_0000 + data[pos + 3] as int * 0x1_0000_0000 +
    data[pos + 4] as int * 0x100_0000 + data[pos + 5] as int * 0x1_0000 +
    data[pos + 6] as int * 0x100 + data[pos + 7]
  }

  function ReadUint8(data: seq<byte>, pos: nat): (s: Step<byte>)
    requires pos <= |data|
    ensures pos <= s.pos <= |data| && (s.result.Ok? <==> pos < |data|)
  {
    if pos + 1 <= |data| then Step(Ok(data[pos]), pos + 1)
    else Step(Err(ShortError(data, pos, 1)), |data|)
  }

  function ReadInt16(data: seq<byte>, pos: nat): (s: Step<int16>)
    requires pos <= |data|
    ensures pos <= s.pos <= |data| && (s.result.Ok? <==> pos + 2 <= |data|)
  {
    if pos + 2 <= |data| then Step(Ok(Signed16(Word16(data, pos))), pos + 2)
    else Step(Err(ShortError(data, pos, 2)), |data|)
  }

  /** `uint16(i)` of the signed read. */
  function ReadUint16(data: seq<byte>, pos: nat): (s: Step<uint16>)
    requires pos <= |data|
    ensures pos <= s.pos <= |data| && (s.result.Ok? <==> pos + 2 <= |data|)
  {
    var i := ReadInt16(data, pos);
    if i.result.Err? then Step(Err(i.result.error), i.pos)
    else Step(Ok(i.result.value % 0x1_0000), i.pos)
  }

  function ReadInt32(data: seq<byte>, pos: nat): (s: Step<int32>)
    requires pos <= |data|
    ensures pos <= s.pos <= |data| && (s.result.Ok? <==> pos + 4 <= |data|)
  {
    if pos + 4 <= |data| then Step(Ok(Signed32(Word32(data, pos))), pos + 4)
    else Step(Err(ShortError(data, pos, 4)), |data|)
  }

  /** `uint32(i)` of the signed read. */
  function ReadUint32(data: seq<byte>, pos: nat): (s: Step<uint32>)
    requires pos <= |data|
    ensures pos <= s.pos <= |data| && (s.result.Ok? <==> pos + 4 <= |data|)
  {
    var i := ReadInt32(data, pos);
    if i.result.Err? then Step(Err(i.result.error), i.pos)
    else Step(Ok(i.result.value % TwoTo32), i.pos)
  }

  function ReadInt64(data: seq<byte>, pos: nat): (s: Step<int64>)
    requires pos <= |data|
    ensures pos <= s.pos <= |data| && (s.result.Ok? <==> pos + 8 <= |data|)
  {
    if pos + 8 <= |data| then Step(Ok(Signed64(Word64(data, pos))), pos + 8)
    else Step(Err(ShortError(data, pos, 8)), |data|)
  }

  function ReadUint64(data: seq<byte>, pos: nat): (s: Step<uint64>)
    requires pos <= |data|
    ensures pos <= s.pos <= |data| && (s.result.Ok? <==> pos + 8 <= |data|)
  {
    if pos + 8 <= |data| then Step(Ok(Word64(data, pos)), pos + 8)
    else Step(Err(ShortError(data, pos, 8)), |data|)
  }

  /** A signed 16-bit length, then that many bytes. Go's `make` panics on a
      negative length; here that is the `NegativeSize` error. */
  function ReadBinary(data: seq<byte>, pos: nat): (s: Step<seq<byte>>)
    requires pos <= |data|
    ensures pos <= s.pos <= |data|
    ensures s.result.Ok? ==> s.pos == pos + 2 + |s.result.value| && s.result.value == data[pos + 2..s.pos]
  {
    var size := ReadInt16(data, pos);
    if size.result.Err? then Step(Err(size.result.error), size.pos)
    else if size.result.value < 0 then Step(Err(NegativeSize(size.result.value)), size.pos)
    else if size.result.value == 0 then Step(Ok([]), size.pos)
    else Fill(data, size.pos, size.result.value)
  }

  /** Everything from the cursor to the end. */
  function ReadAll(data: seq<byte>, pos: nat): (s: Step<seq<byte>>)
    requires pos <= |data|
    ensures s == Step(Ok(data[pos..]), |data|)
  {
    var remains := |data| - pos;
    if remains == 0 then assert data[pos..] == []; Step(Ok([]), pos)
    else assert data[pos..pos + remains] == data[pos..]; Fill(data, pos, remains)
  }

  /** `Bytes(num)`: a single read into a buffer of `num` bytes whose count
      is not checked, so a short read leaves the tail of the buffer zero. */
  function ReadBytes(data: seq<byte>, pos: nat, num: nat): (s: Step<seq<byte>>)
    requires pos <= |data|
    ensures pos <= s.pos <= |data|
    ensures s.result.Err? <==> pos == |data|
    ensures s.result.Ok? ==> |s.result.value| == num && s.pos == pos + Min(num, |data| - pos)
    ensures s.result.Ok? ==> s.result.value[..s.pos - pos] == data[pos..s.pos]
    ensures s.result.Ok? ==> forall i :: s.pos - pos <= i < num ==> s.result.value[i] == 0
  {
    if pos == |data| then Step(Err(EOF), pos)
    else
      var n := Min(num, |data| - pos);
      Step(Ok(data[pos..pos + n] + seq(num - n, _ => 0)), pos + n)
  }

  /** The first byte at or after `pos` without the continuation bit. */
  function Terminator(data: seq<byte>, pos: nat): (r: Option<nat>)
    requires pos <= |data|
    ensures r.Some? ==> pos <= r.value < |data| && data[r.value] < 0x80
    ensures r.Some? ==> forall i :: pos <= i < r.value ==> data[i] >= 0x80
    ensures r.None? ==> forall i :: pos <= i < |data| ==> data[i] >= 0x80
    decreases |data| - pos
  {
    if pos == |data| then None
    else if data[pos] < 0x80 then Some(pos)
    else Terminator(data, pos + 1)
  }

  /** A base-128 integer, least significant digit first, accumulated in 64
      bits (digits beyond the ninth wrap around), ending at the first byte
      without the continuation bit. Running out of data is EOF. */
  function ReadVariable(data: seq<byte>, pos: nat): (s: Step<uint64>)
    requires pos <= |data|
    ensures pos <= s.pos <= |data|
  {
    match Terminator(data, pos)
    case Some(t) => Step(Ok(LEValue(data[pos..t + 1]) % TwoTo64), t + 1)
    case None => Step(Err(EOF), |data|)
  }

  class Decoder {
    const data: seq<byte>
    /** The reader's cursor into `data`. */
    var pos: nat

    ghost predicate Valid()
      reads this
    {
      pos <= |data|
    }

    constructor (p: seq<byte>)
      ensures Valid() && data == p && pos == 0
    {
      data := p;
      pos := 0;
    }

    /** The number of unread bytes. */
    method Len() returns (n: nat)
      requires Valid()
      ensures n == |data| - pos
    {
      n := |data| - pos;
    }

    /** `bytes.Reader.Read` into a buffer of `want` bytes: EOF when the
        cursor is at the end, otherwise it copies what is there, up to
        `want` bytes, and advances past it. */
    method Read(want: nat) returns (n: nat, chunk: seq<byte>, err: Option<Error>)
      requires Valid()
      modifies this
      ensures Valid()
      ensures old(pos) == |data| ==> err == Some(EOF) && n == 0 && chunk == [] && pos == old(pos)
      ensures old(pos) < |data| ==> err.None? && n == Min(want, |data| - old(pos))
      ensures old(pos) < |data| ==> pos == old(pos) + n && chunk == data[old(pos)..pos]
    {
      if pos >= |data| {
        return 0, [], Some(EOF);
      }
      n := Min(want, |data| - pos);
      chunk := data[pos..pos + n];
      pos := pos + n;
      err := None;
    }

    method Uint8() returns (r: Result<byte>)
      requires Valid()
      modifies this
      ensures Valid() && Step(r, pos) == ReadUint8(data, old(pos))
    {
      var n, b, err := Read(1);
      // a read of one byte that does not hit the end always fills it
      r := if err.Some? then Err(err.value) else if n != 1 then Err(ShortRead(n, 1)) else Ok(b[0]);
    }

    method Int16() returns (r: Result<int16>)
      requires Valid()
      modifies this
      ensures Valid() && Step(r, pos) == ReadInt16(data, old(pos))
    {
      var n, b, err := Read(2);
      if err.Some? {
        return Err(err.value);
      } else if n != 2 {
        return Err(ShortRead(n, 2));
      }
      return Ok(Signed16(b[0] as int * 0x100 + b[1]));
    }

    method Uint16() returns (r: Result<uint16>)
      requires Valid()
      modifies this
      ensures Valid() && Step(r, pos) == ReadUint16(data, old(pos))
    {
      var i := Int16();
      if i.Err? {
        return Err(i.error);
      }
      return Ok(i.value % 0x1_0000);
    }

    method Bytes(num: nat) returns (r: Result<seq<byte>>)
      requires Valid()
      modifies this
      ensures Valid() && Step(r, pos) == ReadBytes(data, old(pos), num)
    {
      var n, b, err := Read(num);
      if err.Some? {
        return Err(err.value);
      }
      return Ok(b + seq(num - n, _ => 0));
    }

    method Int64() returns (r: Result<int64>)
      requires Valid()
      modifies this
      ensures Valid() && Step(r, pos) == ReadInt64(data, old(pos))
    {
      var n, b, err := Read(8);
      if err.Some? {
        return Err(err.value);
      } else if n != 8 {
        return Err(ShortRead(n, 8));
      }
      return Ok(Signed64(b[0] as int * 0x100_0000_0000_0000 + b[1] as int * 0x1_0000_0000_0000 +
                         b[2] as int * 0x100_0000_0000 + b[3] as int * 0x1_0000_0000 +
                         b[4] as int * 0x100_0000 + b[5] as int * 0x1_0000 + b[6] as int * 0x100 + b[7]));
    }

    method Uint64() returns (r: Result<uint64>)
      requires Valid()
      modifies this
      ensures Valid() && Step(r, pos) == ReadUint64(data, old(pos))
    {
      var n, b, err := Read(8);
      if err.Some? {
        return Err(err.value);
      } else if n != 8 {
        return Err(ShortRead(n, 8));
      }
      return Ok(b[0] as int * 0x100_0000_0000_0000 + b[1] as int * 0x1_0000_0000_0000 +
                b[2] as int * 0x100_0000_0000 + b[3] as int * 0x1_0000_0000 +
                b[4] as int * 0x100_0000 + b[5] as int * 0x1_0000 + b[6] as int * 0x100 + b[7]);
    }

    method Int32() returns (r: Result<int32>)
      requires Valid()
      modifies this
      ensures Valid() && Step(r, pos) == ReadInt32(data, old(pos))
    {
      var n, b, err := Read(4);
      if err.Some? {
        return Err(err.value);
      } else if n != 4 {
        return Err(ShortRead(n, 4));
      }
      return Ok(Signed32(b[0] as int * 0x100_0000 + b[1] as int * 0x1_0000 + b[2] as int * 0x100 + b[3]));
    }

    method Uint32() returns (r: Result<uint32>)
      requires Valid()
      modifies this
      ensures Valid() && Step(r, pos) == ReadUint32(data, old(pos))
    {
      var i := Int32();
      if i.Err? {
        return Err(i.error);
      }
      return Ok(i.value % TwoTo32);
    }

    method String() returns (r: Result<seq<byte>>)
      requires Valid()
      modifies this
      ensures Valid() && Step(r, pos) == ReadBinary(data, old(pos))
    {
      r := Binary();
    }

    method StringAll() returns (r: Result<seq<byte>>)
      requires Valid()
      modifies this
      ensures Valid() && Step(r, pos) == ReadAll(data, old(pos))
    {
      r := BinaryAll();
    }

    method Binary() returns (r: Result<seq<byte>>)
      requires Valid()
      modifies this
      ensures Valid() && Step(r, pos) == ReadBinary(data, old(pos))
    {
      var size := Int16();
      if size.Err? {
        return Err(size.error);
      }
      if size.value < 0 {
        return Err(NegativeSize(size.value));
      }
      if size.value == 0 {
        return Ok([]);
      }
      var n, buf, err := Read(size.value);
      if err.Some? {
        return Err(err.value);
      } else if n != size.value {
        return Err(ShortRead(n, size.value));
      }
      return Ok(buf);
    }

    method BinaryAll() returns (r: Result<seq<byte>>)
      requires Valid()
      modifies this
      ensures Valid() && Step(r, pos) == ReadAll(data, old(pos))
    {
      var remains := Len();
      if remains == 0 {
        return Ok([]);
      }
      var n, buf, err := Read(remains);
      if err.Some? {
        return Err(err.value);
      } else if n != remains {
        return Err(ShortRead(n, remains));
      }
      return Ok(buf);
    }

    method Variable() returns (r: Result<uint64>)
      requires Valid()
      modifies this
      ensures Valid() && Step(r, pos) == ReadVariable(data, old(pos))
    {
      var size: uint64 := 0;
      var mul: uint64 := 1;
      ghost var start := pos;
      while true
        invariant start <= pos <= |data|
        invariant forall i :: start <= i < pos ==> data[i] >= 0x80
        invariant size == LEValue(data[start..pos]) % TwoTo64
        invariant mul == Pow128(pos - start) % TwoTo64
        decreases |data| - pos
      {
        ghost var before := pos;
        var i := Uint8();
        if i.Err? {
          TerminatorNone(data, start);
          return Err(i.error);
        }
        assert data[start..pos] == data[start..before] + [i.value];
        VariableDigit(data[start..before], i.value, size, mul);
        size := (size + (i.value % 0x80) * mul) % TwoTo64;
        mul := (mul * 0x80) % TwoTo64;
        if i.value < 0x80 {
          TerminatorAt(data, start, before);
          break;
        }
      }
      return Ok(size);
    }
  }

  /** One more digit keeps the 64-bit accumulator and multiplier of
      `Variable` equal to the digits' value and weight modulo 2^64. */
  lemma VariableDigit(digits: seq<byte>, b: byte, size: int, mul: int)
    requires size == LEValue(digits) % TwoTo64 && mul == Pow128(|digits|) % TwoTo64
    ensures (size + (b % 0x80) * mul) % TwoTo64 == LEValue(digits + [b]) % TwoTo64
    ensures (mul * 0x80) % TwoTo64 == Pow128(|digits + [b]|) % TwoTo64
  {
    LEValueSnoc(digits, b);
    ModAddMul(LEValue(digits), b % 0x80, Pow128(|digits|), TwoTo64);
    ModAddMul(0, 0x80, Pow128(|digits|), TwoTo64);
  }

  /** Arithmetic modulo `m` may reduce its operands first. */
  lemma ModAddMul(a: int, c: int, p: int, m: int)
    requires m > 0
    ensures (a % m + c * (p % m)) % m == (a + c * p) % m
  {
    var qa, qp := a / m, p / m;
    assert a + c * p == (a % m + c * (p % m)) + m * (qa + c * qp);
    ModAddMultiple(a % m + c * (p % m), qa + c * qp, m);
  }

  lemma ModAddMultiple(x: int, y: int, m: int)
    requires m > 0
    ensures (x + m * y) % m == x % m
  {
    ModUnique(x + m * y, m, x / m + y, x % m);
  }

  lemma {:induction false} TerminatorAt(data: seq<byte>, pos: nat, t: nat)
    requires pos <= t < |data| && data[t] < 0x80
    requires forall i :: pos <= i < t ==> data[i] >= 0x80
    ensures Terminator(data, pos) == Some(t)
    decreases t - pos
  {
    if pos < t {
      TerminatorAt(data, pos + 1, t);
    }
  }

  lemma {:induction false} TerminatorNone(data: seq<byte>, pos: nat)
    requires pos <= |data|
    requires forall i :: pos <= i < |data| ==> data[i] >= 0x80
    ensures Terminator(data, pos) == None
    decreases |data| - pos
  {
    if pos < |data| {
      TerminatorNone(data, pos + 1);
    }
  }

  /** A positive number written as base-128 digits reads back, modulo 2^64,
      and the read stops right after its last digit. Zero is written as no
      digits at all, so it has no such round trip. */
  lemma VariableRoundTrip(n: nat, rest: seq<byte>)
    requires n > 0
    ensures ReadVariable(VarDigits(n) + rest, 0) == Step(Ok(n % TwoTo64), |VarDigits(n)|)
  {
    var d := VarDigits(n);
    var data := d + rest;
    VarDigitsShape(n);
    VarDigitsValue(n);
    TerminatorAt(data, 0, |d| - 1);
    assert data[0..|d|] == d;
  }

  // ---------------------------------------------------------------------
  // Reading back what the encoder wrote

  //
  // Each lemma takes the unread input as the field's encoding followed by
  // the rest, and gives the value read and the rest left unread.

  lemma ReadUint8At(data: seq<byte>, pos: nat, v: byte, rest: seq<byte>)
    requires pos <= |data| && data[pos..] == [v] + rest
    ensures ReadUint8(data, pos) == Step(Ok(v), pos + 1) && data[pos + 1..] == rest
  {
    assert data[pos] == data[pos..][0];
  }

  lemma ReadInt16At(data: seq<byte>, pos: nat, v: int, rest: seq<byte>)
    requires 0 <= v < 0x8000
    requires pos <= |data| && data[pos..] == BigEndian(v, 2) + rest
    ensures ReadInt16(data, pos) == Step(Ok(v), pos + 2) && data[pos + 2..] == rest
  {
    Word16At(data, pos, BigEndian(v, 2), rest);
    Unsigned16RoundTrip(v);
  }

  lemma ReadUint32At(data: seq<byte>, pos: nat, v: uint32, rest: seq<byte>)
    requires pos <= |data| && data[pos..] == BigEndian(v, 4) + rest
    ensures ReadUint32(data, pos) == Step(Ok(v), pos + 4) && data[pos + 4..] == rest
  {
    Word32At(data, pos, BigEndian(v, 4), rest);
    Unsigned32RoundTrip(v);
    Signed32Mod(v);
  }

  lemma ReadInt32At(data: seq<byte>, pos: nat, v: int32, rest: seq<byte>)
    requires pos <= |data| && data[pos..] == BigEndian(v, 4) + rest
    ensures ReadInt32(data, pos) == Step(Ok(v), pos + 4) && data[pos + 4..] == rest
  {
    Word32At(data, pos, BigEndian(v, 4), rest);
    Signed32RoundTrip(v);
  }

  lemma ReadInt64At(data: seq<byte>, pos: nat, v: int64, rest: seq<byte>)
    requires pos <= |data| && data[pos..] == BigEndian(v, 8) + rest
    ensures ReadInt64(data, pos) == Step(Ok(v), pos + 8) && data[pos + 8..] == rest
  {
    Word64At(data, pos, BigEndian(v, 8), rest);
    Signed64RoundTrip(v);
  }

  lemma ReadUint64At(data: seq<byte>, pos: nat, v: uint64, rest: seq<byte>)
    requires pos <= |data| && data[pos..] == BigEndian(v, 8) + rest
    ensures ReadUint64(data, pos) == Step(Ok(v), pos + 8) && data[pos + 8..] == rest
  {
    Word64At(data, pos, BigEndian(v, 8), rest);
    Unsigned64RoundTrip(v);
  }

  /** The word at `pos` is the value of the bytes found there. */
  lemma Word16At(data: seq<byte>, pos: nat, w: seq<byte>, rest: seq<byte>)
    requires |w| == 2 && pos <= |data| && data[pos..] == w + rest
    ensures pos + 2 <= |data| && data[pos + 2..] == rest && Word16(data, pos) == FromBigEndian(w)
  {
    WordAt(data, pos, w, rest);
    FromBigEndian2(w);
  }

  lemma Word32At(data: seq<byte>, pos: nat, w: seq<byte>, rest: seq<byte>)
    requires |w| == 4 && pos <= |data| && data[pos..] == w + rest
    ensures pos + 4 <= |data| && data[pos + 4..] == rest && Word32(data, pos) == FromBigEndian(w)
  {
    WordAt(data, pos, w, rest);
    FromBigEndian4(w);
  }

  lemma Word64At(data: seq<byte>, pos: nat, w: seq<byte>, rest: seq<byte>)
    requires |w| == 8 && pos <= |data| && data[pos..] == w + rest
    ensures pos + 8 <= |data| && data[pos + 8..] == rest && Word64(data, pos) == FromBigEndian(w)
  {
    WordAt(data, pos, w, rest);
    FromBigEndian8(w);
    assert data[pos] == w[0] && data[pos + 1] == w[1] && data[pos + 2] == w[2] && data[pos + 3] == w[3];
    assert data[pos + 4] == w[4] && data[pos + 5] == w[5] && data[pos + 6] == w[6] && data[pos + 7] == w[7];
  }

  /** The bytes at `pos` are those of `w`, and what follows is `rest`. */
  lemma WordAt(data: seq<byte>, pos: nat, w: seq<byte>, rest: seq<byte>)
    requires pos <= |data| && data[pos..] == w + rest
    ensures pos + |w| <= |data| && data[pos + |w|..] == rest
    ensures forall i :: 0 <= i < |w| ==> data[pos + i] == w[i]
  {
    assert forall i :: 0 <= i < |w| ==> data[pos + i] == data[pos..][i];
  }

  /** Reinterpreting a 32-bit pattern as signed and back is the identity. */
  lemma Signed32Mod(v: uint32)
    ensures Signed32(v) % TwoTo32 == v
  {
    if v >= 0x8000_0000 {
      ModUnique(v - TwoTo32, TwoTo32, -1, v);
    }
  }

  /** A value shorter than 2^15 bytes reads back from its length-prefixed
      form; a longer one would come back with a negative or wrapped size. */
  lemma ReadBinaryAt(data: seq<byte>, pos: nat, b: seq<byte>, rest: seq<byte>)
    requires |b| < 0x8000
    requires pos <= |data| && data[pos..] == BigEndian(|b|, 2) + b + rest
    ensures ReadBinary(data, pos) == Step(Ok(b), pos + 2 + |b|) && data[pos + 2 + |b|..] == rest
  {
    ReadLengthPrefix(data, pos, b, rest);
    ReadBinaryContents(data, pos, b, rest);
  }

  lemma ReadLengthPrefix(data: seq<byte>, pos: nat, b: seq<byte>, rest: seq<byte>)
    requires |b| < 0x8000
    requires pos <= |data| && data[pos..] == BigEndian(|b|, 2) + b + rest
    ensures ReadInt16(data, pos) == Step(Ok(|b|), pos + 2) && data[pos + 2..] == b + rest
  {
    SeqAssoc3(BigEndian(|b|, 2), b, rest);
    ReadInt16At(data, pos, |b|, b + rest);
  }

  lemma ReadBinaryContents(data: seq<byte>, pos: nat, b: seq<byte>, rest: seq<byte>)
    requires pos + 2 <= |data| && ReadInt16(data, pos) == Step(Ok(|b|), pos + 2)
    requires data[pos + 2..] == b + rest
    ensures ReadBinary(data, pos) == Step(Ok(b), pos + 2 + |b|) && data[pos + 2 + |b|..] == rest
  {
    var tail := data[pos + 2..];
    assert data[pos + 2..pos + 2 + |b|] == tail[..|b|] == b;
    assert data[pos + 2 + |b|..] == tail[|b|..] == rest;
  }

  /** A length-prefixed value cut off before its end does not read. */
  lemma ReadBinaryCut(data: seq<byte>, pos: nat, b: seq<byte>)
    requires |b| < 0x8000 && pos <= |data| < pos + 2 + |b|
    requires data[pos..] == (BigEndian(|b|, 2) + b)[..|data| - pos]
    ensures ReadBinary(data, pos).result.Err?
  {
    if |data| >= pos + 2 {
      CutAfter(BigEndian(|b|, 2), b, |data| - pos);
      ReadInt16At(data, pos, |b|, b[..|data| - pos - 2]);
    }
  }

  // ---------------------------------------------------------------------
  // Reading a prefix of the input

  //
  // A read that ends within the first `k` bytes reads the same from the
  // input cut to `k` bytes; one that ends beyond them fails there.

  lemma ReadUint8Prefix(full: seq<byte>, pos: nat, k: nat)
    requires pos + 1 <= k <= |full|
    ensures ReadUint8(full[..k], pos) == ReadUint8(full, pos)
  {
    assert full[..k][pos] == full[pos];
  }

  lemma ReadInt16Prefix(full: seq<byte>, pos: nat, k: nat)
    requires pos + 2 <= k <= |full|
    ensures ReadInt16(full[..k], pos) == ReadInt16(full, pos)
  {
    assert Word16(full[..k], pos) == Word16(full, pos);
  }

  lemma ReadInt32Prefix(full: seq<byte>, pos: nat, k: nat)
    requires pos + 4 <= k <= |full|
    ensures ReadInt32(full[..k], pos) == ReadInt32(full, pos)
    ensures ReadUint32(full[..k], pos) == ReadUint32(full, pos)
  {
    assert Word32(full[..k], pos) == Word32(full, pos);
  }

  lemma ReadInt64Prefix(full: seq<byte>, pos: nat, k: nat)
    requires pos + 8 <= k <= |full|
    ensures ReadInt64(full[..k], pos) == ReadInt64(full, pos)
    ensures ReadUint64(full[..k], pos) == ReadUint64(full, pos)
  {
    assert Word64(full[..k], pos) == Word64(full, pos);
  }

  lemma ReadBinaryPrefix(full: seq<byte>, pos: nat, k: nat)
    requires pos <= k <= |full| && ReadBinary(full, pos).result.Ok?
    ensures ReadBinary(full, pos).pos <= k ==> ReadBinary(full[..k], pos) == ReadBinary(full, pos)
    ensures k < ReadBinary(full, pos).pos ==> ReadBinary(full[..k], pos).result.Err?
  {
    if pos + 2 <= k {
      ReadInt16Prefix(full, pos, k);
      var e := ReadBinary(full, pos).pos;
      if e <= k {
        assert full[..k][pos + 2..e] == full[pos + 2..e];
      }
    }
  }

  /** Cutting a concatenation inside or after its first part. */
  lemma CutAfter(x: seq<byte>, rest: seq<byte>, n: nat)
    requires |x| <= n <= |x| + |rest|
    ensures (x + rest)[..n] == x + rest[..n - |x|]
  {
  }

  lemma CutInside(x: seq<byte>, rest: seq<byte>, n: nat)
    requires n <= |x|
    ensures (x + rest)[..n] == x[..n]
  {
  }

  /** The unread part of a cut input is the cut of the unread part. */
  lemma CutTail(full: seq<byte>, k: nat, i: nat)
    requires i <= k <= |full|
    ensures full[..k][i..] == full[i..][..k - i]
  {
    assert forall j :: 0 <= j < k - i ==> full[..k][i..][j] == full[i + j];
  }

  lemma SeqAssoc3(a: seq<byte>, b: seq<byte>, c: seq<byte>)
    ensures a + b + c == a + (b + c)
  {
  }

  lemma SeqAssoc4(a: seq<byte>, b: seq<byte>, c: seq<byte>, d: seq<byte>, e: seq<byte>)
    ensures a + b + c + d + e == a + (b + (c + (d + e)))
  {
  }

  lemma DropTwo(a: seq<byte>, b: seq<byte>, c: seq<byte>)
    ensures (a + (b + c))[|a| + |b|..] == c
  {
    assert (a + (b + c))[|a|..] == b + c;
  }
}
