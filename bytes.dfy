/** Fixed-width integers, big-endian byte strings and the base-128 digit
    scheme that the LiMao encoder, decoder and frame header share.
    Go's integer widths are subset types of `int`; wrap-around and
    truncation are written out where the Go code relies on them. */
module Bytes {

  type byte = x: int | 0 <= x < 0x100
  type uint16 = x: int | 0 <= x < 0x1_0000
  type uint32 = x: int | 0 <= x < 0x1_0000_0000
  type uint64 = x: int | 0 <= x < 0x1_0000_0000_0000_0000
  type int16 = x: int | -0x8000 <= x < 0x8000
  type int32 = x: int | -0x8000_0000 <= x < 0x8000_0000
  type int64 = x: int | -0x8000_0000_0000_0000 <= x < 0x8000_0000_0000_0000

  const TwoTo32: int := 0x1_0000_0000
  const TwoTo64: int := 0x1_0000_0000_0000_0000

  function Pow256(n: nat): (r: int)
    ensures r >= 1
  {
    if n == 0 then 1 else 256 * Pow256(n - 1)
  }

  function Pow128(n: nat): (r: int)
    ensures r >= 1
  {
    if n == 0 then 1 else 128 * Pow128(n - 1)
  }

  lemma PowValues()
    ensures Pow256(1) == 0x100 && Pow256(2) == 0x1_0000
    ensures Pow256(4) == TwoTo32 && Pow256(8) == TwoTo64
    ensures Pow128(4) == 0x1000_0000
  {
  }

  // ---------------------------------------------------------------------
  // Big-endian fixed-width integers

  /** The `n` low-order bytes of `v`, most significant first. For a
      negative `v` these are the bytes of its two's complement, as Go's
      `byte(i >> k)` produces them. */
  function BigEndian(v: int, n: nat): (r: seq<byte>)
    ensures |r| == n
    decreases n
  {
    if n == 0 then [] else BigEndian(v / 256, n - 1) + [v % 256]
  }

  /** The unsigned value of a big-endian byte string. */
  function FromBigEndian(s: seq<byte>): (r: nat)
    ensures r < Pow256(|s|)
  {
    if s == [] then 0 else FromBigEndian(s[..|s| - 1]) * 256 + s[|s| - 1]
  }

  /** Two's-complement reinterpretations of unsigned values. */
  function Signed16(u: uint16): int16
  {
    if u < 0x8000 then u else u - 0x1_0000
  }

  function Signed32(u: uint32): int32
  {
    if u < 0x8000_0000 then u else u - TwoTo32
  }

  function Signed64(u: uint64): int64
  {
    if u < 0x8000_0000_0000_0000 then u else u - TwoTo64
  }

  /** Go's conversion `uint32(n)`: the low 32 bits of `n`. */
  function ToUint32(n: int): (r: uint32)
    ensures 0 <= n < TwoTo32 ==> r == n
  {
    if 0 <= n < TwoTo32 then n else n % TwoTo32
  }

  /** Division with remainder has exactly one answer. */
  lemma ModUnique(v: int, d: int, k: int, rem: int)
    requires d > 0 && 0 <= rem < d && v == k * d + rem
    ensures v % d == rem
  {
    var q, r := v / d, v % d;
    assert v == q * d + r;
    assert (q - k) * d == rem - r;
    ZeroFactor(q - k, d);
  }

  lemma ZeroFactor(x: int, d: int)
    requires d > 0 && -d < x * d < d
    ensures x == 0
  {
  }

  lemma ModOfDiv(v: int, m: int)
    requires m > 0
    ensures ((v / 256) % m) * 256 + v % 256 == v % (256 * m)
  {
    var q, r := v / 256, v % 256;
    var q2, s := q / m, q % m;
    assert v == (q2 * (256 * m)) + (256 * s + r);
    ModUnique(v, 256 * m, q2, 256 * s + r);
  }

  /** Reading back `n` big-endian bytes gives `v` modulo 256^n. */
  lemma {:induction false} FromBigEndianInverts(v: int, n: nat)
    ensures FromBigEndian(BigEndian(v, n)) == v % Pow256(n)
    decreases n
  {
    if n > 0 {
      var s := BigEndian(v, n);
      assert s[..n - 1] == BigEndian(v / 256, n - 1);
      assert s[n - 1] == v % 256;
      FromBigEndianInverts(v / 256, n - 1);
      ModOfDiv(v, Pow256(n - 1));
    }
  }

  lemma FromBigEndian2(s: seq<byte>)
    requires |s| == 2
    ensures FromBigEndian(s) == s[0] as int * 0x100 + s[1]
  {
    assert s[..1][..0] == [];
  }

  lemma FromBigEndian4(s: seq<byte>)
    requires |s| == 4
    ensures FromBigEndian(s) == s[0] as int * 0x100_0000 + s[1] as int * 0x1_0000 + s[2] as int * 0x100 + s[3]
  {
    assert s[..3][..2] == s[..2];
    FromBigEndian2(s[..2]);
  }

  lemma FromBigEndian8(s: seq<byte>)
    requires |s| == 8
    ensures FromBigEndian(s) ==
      s[0] as int * 0x100_0000_0000_0000 + s[1] as int * 0x1_0000_0000_0000 +
      s[2] as int * 0x100_0000_0000 + s[3] as int * 0x1_0000_0000 +
      s[4] as int * 0x100_0000 + s[5] as int * 0x1_0000 + s[6] as int * 0x100 + s[7]
  {
    assert s[..7][..6] == s[..6];
    assert s[..6][..5] == s[..5];
    assert s[..5][..4] == s[..4];
    FromBigEndian4(s[..4]);
  }

  /** The Go encoder's `byte(i >> 8), byte(i & 0xFF)` is BigEndian(i, 2). */
  lemma BigEndian2Bytes(v: int)
    ensures BigEndian(v, 2) == [(v / 0x100) % 0x100, v % 0x100]
  {
  }

  lemma BigEndian4Bytes(v: int)
    ensures BigEndian(v, 4) ==
      [(v / 0x100_0000) % 0x100, (v / 0x1_0000) % 0x100, (v / 0x100) % 0x100, v % 0x100]
  {
    assert v / 256 / 256 == v / 0x1_0000;
    assert v / 256 / 256 / 256 == v / 0x100_0000;
    calc {
      BigEndian(v, 4);
      BigEndian(v / 256, 3) + [v % 256];
      BigEndian(v / 256 / 256, 2) + [(v / 256) % 256] + [v % 256];
      BigEndian(v / 256 / 256 / 256, 1) + [(v / 256 / 256) % 256] + [(v / 256) % 256] + [v % 256];
    }
  }

  lemma BigEndian8Bytes(v: int)
    ensures BigEndian(v, 8) ==
      [(v / 0x100_0000_0000_0000) % 0x100, (v / 0x1_0000_0000_0000) % 0x100,
       (v / 0x100_0000_0000) % 0x100, (v / 0x1_0000_0000) % 0x100,
       (v / 0x100_0000) % 0x100, (v / 0x1_0000) % 0x100, (v / 0x100) % 0x100, v % 0x100]
  {
    var w := v / 0x1_0000_0000;
    assert v / 256 / 256 / 256 / 256 == w;
    BigEndian4Bytes(v);
    BigEndian4Bytes(w);
    assert w / 0x100 == v / 0x100_0000_0000;
    assert w / 0x1_0000 == v / 0x1_0000_0000_0000;
    assert w / 0x100_0000 == v / 0x100_0000_0000_0000;
    BigEndianSplit(v, 4, 4);
  }

  /** The high bytes of a wide encoding are the encoding of the high part. */
  lemma {:induction false} BigEndianSplit(v: int, hi: nat, lo: nat)
    ensures BigEndian(v, hi + lo) == BigEndian(v / Pow256(lo), hi) + BigEndian(v, lo)
    decreases lo
  {
    if lo > 0 {
      BigEndianSplit(v / 256, hi, lo - 1);
      DivDiv(v, Pow256(lo - 1));
    }
  }

  lemma DivDiv(v: int, m: int)
    requires m > 0
    ensures v / 256 / m == v / (256 * m)
  {
    var q, r := v / 256, v % 256;
    var q2, s := q / m, q % m;
    assert v == q2 * (256 * m) + (256 * s + r);
    ModUnique(v, 256 * m, q2, 256 * s + r);
  }

  /** Reading a value written as `n` bytes, for every width the codec uses. */
  lemma Unsigned16RoundTrip(v: int)
    requires 0 <= v < 0x1_0000
    ensures FromBigEndian(BigEndian(v, 2)) == v
  {
    FromBigEndianInverts(v, 2);
    PowValues();
  }

  lemma Unsigned32RoundTrip(v: uint32)
    ensures FromBigEndian(BigEndian(v, 4)) == v
  {
    FromBigEndianInverts(v, 4);
    PowValues();
  }

  lemma Unsigned64RoundTrip(v: uint64)
    ensures FromBigEndian(BigEndian(v, 8)) == v
  {
    FromBigEndianInverts(v, 8);
    PowValues();
  }

  lemma Signed32RoundTrip(v: int32)
    ensures FromBigEndian(BigEndian(v, 4)) < TwoTo32
    ensures Signed32(FromBigEndian(BigEndian(v, 4))) == v
  {
    FromBigEndianInverts(v, 4);
    PowValues();
    if v < 0 {
      ModUnique(v, TwoTo32, -1, v + TwoTo32);
    } else {
      ModUnique(v, TwoTo32, 0, v);
    }
  }

  lemma Signed64RoundTrip(v: int64)
    ensures FromBigEndian(BigEndian(v, 8)) < TwoTo64
    ensures Signed64(FromBigEndian(BigEndian(v, 8))) == v
  {
    FromBigEndianInverts(v, 8);
    PowValues();
    if v < 0 {
      ModUnique(v, TwoTo64, -1, v + TwoTo64);
    } else {
      ModUnique(v, TwoTo64, 0, v);
    }
  }

  // ---------------------------------------------------------------------
  // Base-128 digits

  /** The base-128 digits of `n`, least significant first. Every digit but
      the last carries the continuation bit 0x80; zero has no digits. */
  function VarDigits(n: nat): seq<byte>
    decreases n
  {
    if n == 0 then []
    else [if n / 128 > 0 then n % 128 + 0x80 else n % 128] + VarDigits(n / 128)
  }

  /** The value of a digit string read little-endian in base 128, each
      byte contributing its low seven bits. */
  function LEValue(s: seq<byte>): nat
  {
    if s == [] then 0 else s[0] % 128 + 128 * LEValue(s[1..])
  }

  /** A digit string that ends at its last byte: continuation bit on every
      byte but the last. */
  ghost predicate Terminated(s: seq<byte>)
  {
    |s| >= 1 && s[|s| - 1] < 0x80 && forall i :: 0 <= i < |s| - 1 ==> s[i] >= 0x80
  }

  lemma {:induction false} VarDigitsShape(n: nat)
    ensures n == 0 <==> VarDigits(n) == []
    ensures n > 0 ==> Terminated(VarDigits(n))
    decreases n
  {
    if n > 0 {
      VarDigitsShape(n / 128);
    }
  }

  lemma {:induction false} VarDigitsValue(n: nat)
    ensures LEValue(VarDigits(n)) == n
    decreases n
  {
    if n > 0 {
      var d := VarDigits(n);
      assert d[1..] == VarDigits(n / 128);
      VarDigitsValue(n / 128);
    }
  }

  /** `n` needs at most `k` digits exactly when it is below 128^k. */
  lemma {:induction false} VarDigitsLength(n: nat, k: nat)
    ensures |VarDigits(n)| <= k <==> n < Pow128(k)
    decreases n
  {
    if n > 0 && k > 0 {
      VarDigitsLength(n / 128, k - 1);
    }
  }

  lemma {:induction false} LEValueSnoc(s: seq<byte>, b: byte)
    ensures LEValue(s + [b]) == LEValue(s) + (b % 128) * Pow128(|s|)
  {
    if s != [] {
      var t := s[1..];
      assert (s + [b])[1..] == t + [b];
      LEValueSnoc(t, b);
      var d, p := b % 128, Pow128(|t|);
      assert Pow128(|s|) == 128 * p;
      assert 128 * (LEValue(t) + d * p) == 128 * LEValue(t) + d * (128 * p);
    }
  }

  lemma {:induction false} LEValueBound(s: seq<byte>)
    ensures LEValue(s) < Pow128(|s|)
  {
    if s != [] {
      LEValueBound(s[1..]);
    }
  }
}
