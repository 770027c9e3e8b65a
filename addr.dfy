/** The client's `parseAddr`: an address such as `tcp://127.0.0.1:6666` is
    lower-cased and split into its network, the address to dial and the
    port. The string functions it calls from Go's standard library
    (`strings.ToLower` on ASCII, `strings.Index`, `strings.Split` and
    `strconv.ParseInt` in base 10) are modelled here as well. */
module Addresses {
  const MaxUint64: int := 0xFFFF_FFFF_FFFF_FFFF
  const MaxInt64: int := 0x7FFF_FFFF_FFFF_FFFF
  const MinInt64: int := -0x8000_0000_0000_0000

  /** `strconv.ParseUint`'s overflow cutoff for base 10: the smallest `n`
      with `n * 10 > MaxUint64`. */
  const Cutoff: int := MaxUint64 / 10 + 1

  // ---------------------------------------------------------------------
  // Lower case

  function LowerChar(c: char): char
  {
    if 'A' <= c <= 'Z' then (c as int + 32) as char else c
  }

  predicate IsLower(s: string)
  {
    forall i :: 0 <= i < |s| ==> LowerChar(s[i]) == s[i]
  }

  /** `strings.ToLower`, for ASCII letters. */
  function Lower(s: string): (r: string)
    ensures |r| == |s|
    ensures forall i :: 0 <= i < |s| ==> r[i] == LowerChar(s[i])
  {
    if s == [] then [] else [LowerChar(s[0])] + Lower(s[1..])
  }

  lemma {:induction false} LowerOfLower(s: string)
    requires IsLower(s)
    ensures Lower(s) == s
  {
    if s != [] {
      LowerOfLower(s[1..]);
    }
  }

  lemma {:induction false} LowerConcat(a: string, b: string)
    ensures Lower(a + b) == Lower(a) + Lower(b)
  {
    if a != [] {
      assert (a + b)[1..] == a[1..] + b;
      LowerConcat(a[1..], b);
    }
  }

  // ---------------------------------------------------------------------
  // Searching

  /** `sep` occurs in `s` at position `j`. */
  predicate Occurs(s: string, sep: string, j: int)
  {
    0 <= j && j + |sep| <= |s| && s[j..j + |sep|] == sep
  }

  /** `strings.Index`: the first position where `sep` occurs, or -1. */
  function Index(s: string, sep: string): (r: int)
    requires |sep| > 0
    ensures -1 <= r <= |s|
    ensures r >= 0 ==> Occurs(s, sep, r)
    ensures forall j :: 0 <= j && (r < 0 || j < r) ==> !Occurs(s, sep, j)
    decreases |s|
  {
    if |s| < |sep| then -1
    else if s[..|sep|] == sep then 0
    else
      var k := Index(s[1..], sep);
      assert forall j :: 1 <= j ==> Occurs(s, sep, j) == Occurs(s[1..], sep, j - 1);
      if k < 0 then -1 else k + 1
  }

  /** The first field of `strings.Split(s, sep)`: everything before the
      first `sep`, or all of `s`. */
  function Before(s: string, sep: string): (r: string)
    requires |sep| > 0
  {
    var i := Index(s, sep);
    if i < 0 then s else s[..i]
  }

  /** Everything after the first `sep`, which must occur. */
  function After(s: string, sep: string): (r: string)
    requires |sep| > 0 && Index(s, sep) >= 0
  {
    s[Index(s, sep) + |sep|..]
  }

  /** Where `sep` occurs first, splitting there gives the two sides back. */
  lemma SplitAround(s: string, sep: string)
    requires |sep| > 0 && Index(s, sep) >= 0
    ensures s == Before(s, sep) + sep + After(s, sep)
    ensures Index(Before(s, sep), sep) == -1
  {
    var i := Index(s, sep);
    assert s == s[..i] + s[i..i + |sep|] + s[i + |sep|..];
    forall j | 0 <= j
      ensures !Occurs(s[..i], sep, j)
    {
      if Occurs(s[..i], sep, j) {
        assert s[..i][j..j + |sep|] == s[j..j + |sep|];
        assert Occurs(s, sep, j);
      }
    }
  }

  /** The first `sep` in `a + sep + b` is the one after `a` when `sep` is
      absent from `a` and cannot straddle `a`'s end. */
  lemma IndexAfterPrefix(a: string, sep: string, b: string)
    requires |sep| > 0
    requires forall j :: 0 <= j < |a| ==> !Occurs(a + sep + b, sep, j)
    ensures Index(a + sep + b, sep) == |a|
    ensures After(a + sep + b, sep) == b
    ensures Before(a + sep + b, sep) == a
  {
    var s := a + sep + b;
    assert s[|a|..|a| + |sep|] == sep;
    assert Occurs(s, sep, |a|);
    assert s[|a| + |sep|..] == b;
    assert s[..|a|] == a;
  }

  // ---------------------------------------------------------------------
  // Decimal numbers

  predicate IsDigit(c: char)
  {
    '0' <= c <= '9'
  }

  predicate AllDigits(s: string)
  {
    forall i :: 0 <= i < |s| ==> IsDigit(s[i])
  }

  function DigitValue(c: char): int
  {
    c as int - '0' as int
  }

  /** The decimal value of a string of digits. */
  function DecValue(s: string): nat
    requires AllDigits(s)
  {
    if s == [] then 0 else DecValue(s[..|s| - 1]) * 10 + DigitValue(s[|s| - 1])
  }

  /** The shortest decimal spelling of `n`, as `strconv.Itoa` writes it. */
  function Decimal(n: nat): (r: string)
    ensures |r| >= 1 && AllDigits(r)
  {
    (if n < 10 then "" else Decimal(n / 10)) + [('0' as int + n % 10) as char]
  }

  lemma {:induction false} DecimalValue(n: nat)
    ensures DecValue(Decimal(n)) == n
  {
    var d := Decimal(n);
    var pre := if n < 10 then "" else Decimal(n / 10);
    var last := ('0' as int + n % 10) as char;
    assert d == pre + [last];
    assert d[..|d| - 1] == pre;
    if n >= 10 {
      DecimalValue(n / 10);
    }
    DecimalDigits(n, DecValue(pre), DigitValue(last));
  }

  lemma DecimalDigits(n: nat, high: nat, low: int)
    requires high == n / 10 && low == n % 10
    ensures high * 10 + low == n
  {
  }

  /** Where the digit loop of `strconv.ParseUint` stands: still going with
      the value read so far, stopped at a character that is not a digit,
      or stopped because the value overflowed 64 bits. */
  datatype Scan = Going(value: nat) | Syntax | Range

  /** The state of `strconv.ParseUint`'s loop in base 10 once it has read
      `s`: each digit is checked first, then whether multiplying by ten,
      then whether adding the digit, passes `MaxUint64`. */
  function ScanDigits(s: string): (r: Scan)
    ensures r.Going? ==> r.value <= MaxUint64
  {
    if s == [] then Going(0)
    else
      match ScanDigits(s[..|s| - 1])
      case Syntax => Syntax
      case Range => Range
      case Going(n) =>
        var c := s[|s| - 1];
        if !IsDigit(c) then Syntax
        else if n >= Cutoff then Range
        else if n * 10 + DigitValue(c) > MaxUint64 then Range
        else Going(n * 10 + DigitValue(c))
  }

  /** On digits the loop reads the decimal value, and stops with an
      overflow exactly when that value does not fit in 64 bits. */
  lemma {:induction false} ScanDigitsValue(s: string)
    requires AllDigits(s)
    ensures ScanDigits(s) == if DecValue(s) <= MaxUint64 then Going(DecValue(s)) else Range
  {
    if s != [] {
      var init := s[..|s| - 1];
      assert AllDigits(init) by {
        forall i | 0 <= i < |init| ensures IsDigit(init[i]) { assert init[i] == s[i]; }
      }
      ScanDigitsValue(init);
      if DecValue(init) > MaxUint64 {
        assert DecValue(s) >= DecValue(init) * 10;
      } else if DecValue(init) >= Cutoff {
        assert DecValue(s) >= Cutoff * 10;
      }
    }
  }

  /** Once the loop has stopped, nothing it has not read yet matters. */
  lemma {:induction false} ScanStays(a: string, b: string)
    requires !ScanDigits(a).Going?
    ensures ScanDigits(a + b) == ScanDigits(a)
    decreases |b|
  {
    if b == [] {
      assert a + b == a;
    } else {
      var b' := b[..|b| - 1];
      assert (a + b)[..|a + b| - 1] == a + b';
      ScanStays(a, b');
    }
  }

  /** `strconv.ParseInt(s, 10, 64)` with its error dropped, as `parseAddr`
      uses it: a sign, then digits; 0 on a syntax error; an out-of-range
      value is clamped to the nearest 64-bit bound. */
  function ParseInt(s: string): (r: int)
    ensures MinInt64 <= r <= MaxInt64
  {
    if s == [] then 0
    else
      var neg := s[0] == '-';
      var digits := if s[0] == '+' || s[0] == '-' then s[1..] else s;
      if digits == [] then 0
      else
        var un := match ScanDigits(digits)
          case Going(n) => n
          case Range => MaxUint64
          case Syntax => -1;
        if un < 0 then 0
        else if !neg && un > MaxInt64 then MaxInt64
        else if neg && un > -MinInt64 then MinInt64
        else if neg then -un
        else un
  }

  /** Unsigned digits read as their value, saturated at the 64-bit bound. */
  lemma ParseIntDigits(s: string)
    requires |s| > 0 && AllDigits(s)
    ensures ParseInt(s) == if DecValue(s) > MaxInt64 then MaxInt64 else DecValue(s)
  {
    ScanDigitsValue(s);
  }

  /** A minus sign negates, saturating at the lowest 64-bit value. */
  lemma ParseIntNegative(s: string)
    requires |s| > 0 && AllDigits(s)
    ensures var v: int := DecValue(s); ParseInt("-" + s) == if v > -MinInt64 then MinInt64 else -v
  {
    assert ("-" + s)[1..] == s;
    ScanDigitsValue(s);
  }

  /** A character that is neither a digit nor a leading sign, reached
      before the digits in front of it overflow, makes the text read as 0. */
  lemma ParseIntSyntax(p: string, c: char, q: string)
    requires AllDigits(p) && DecValue(p) <= MaxUint64 && !IsDigit(c)
    requires p == [] ==> c != '+' && c != '-'
    ensures ParseInt(p + [c] + q) == 0
  {
    var s := p + [c] + q;
    assert s[0] == if p == [] then c else p[0];
    assert s == (p + [c]) + q;
    ScanDigitsValue(p);
    assert (p + [c])[..|p|] == p;
    ScanStays(p + [c], q);
  }

  /** Every port a 64-bit signed integer holds reads back from its decimal
      spelling. */
  lemma ParseIntDecimal(n: nat)
    requires n <= MaxInt64
    ensures ParseInt(Decimal(n)) == n
  {
    DecimalValue(n);
    ParseIntDigits(Decimal(n));
  }

  // ---------------------------------------------------------------------
  // parseAddr

  datatype Addr = Addr(network: string, address: string, port: int)

  const Scheme: string := "://"

  /** Go indexes the second field of `strings.Split(address, ":")`, which
      panics when the address after the scheme has no colon. */
  predicate HasPort(addr: string)
  {
    Index(Lower(addr), Scheme) >= 0 ==> Index(Before(After(Lower(addr), Scheme), Scheme), ":") >= 0
  }

  /** `parseAddr`: without a scheme the whole lower-cased address is
      dialled over "tcp" and the port is 0; with one, the network is what
      precedes the first "://", the address is what follows it up to any
      further "://", and the port is the text between its first and second
      colon, read as a decimal integer. */
  function ParseAddr(addr: string): (r: Addr)
    requires HasPort(addr)
    ensures Index(Lower(addr), Scheme) < 0 ==> r == Addr("tcp", Lower(addr), 0)
  {
    var lower := Lower(addr);
    if Index(lower, Scheme) < 0 then Addr("tcp", lower, 0)
    else
      var address := Before(After(lower, Scheme), Scheme);
      Addr(Before(lower, Scheme), address, ParseInt(Before(After(address, ":"), ":")))
  }

  /** With a scheme, the network and the address hold no "://", the
      address holds a colon, and the network, "://" and the address are
      how the lower-cased text starts. */
  lemma ParseAddrShape(addr: string)
    requires HasPort(addr) && Index(Lower(addr), Scheme) >= 0
    ensures Index(ParseAddr(addr).network, Scheme) < 0
    ensures Index(ParseAddr(addr).address, Scheme) < 0
    ensures Index(ParseAddr(addr).address, ":") >= 0
    ensures ParseAddr(addr).network + Scheme + ParseAddr(addr).address <= Lower(addr)
  {
    var lower := Lower(addr);
    var rest := After(lower, Scheme);
    SplitAround(lower, Scheme);
    BeforeFirst(rest, Scheme);
    PrefixExtend(Before(lower, Scheme) + Scheme, Before(rest, Scheme), rest);
  }

  /** The first field of a split holds no separator and starts the text. */
  lemma BeforeFirst(s: string, sep: string)
    requires |sep| > 0
    ensures Index(Before(s, sep), sep) < 0
    ensures Before(s, sep) <= s
  {
    if Index(s, sep) >= 0 {
      SplitAround(s, sep);
    }
  }

  lemma PrefixExtend(a: string, b: string, c: string)
    requires b <= c
    ensures a + b <= a + c
  {
    assert a + b == (a + c)[..|a| + |b|];
  }

  /** Lower case text with no colon, then "://", a host with no colon, a
      colon and a port's digits: `parseAddr` takes it apart again. */
  lemma ParseAddrBuilds(network: string, host: string, port: nat)
    requires IsLower(network) && IsLower(host) && port <= MaxInt64
    requires forall i :: 0 <= i < |network| ==> network[i] != ':'
    requires forall i :: 0 <= i < |host| ==> host[i] != ':'
    ensures HasPort(network + Scheme + host + ":" + Decimal(port))
    ensures ParseAddr(network + Scheme + host + ":" + Decimal(port)) ==
      Addr(network, host + ":" + Decimal(port), port)
  {
    var digits := Decimal(port);
    var address := host + ":" + digits;
    var addr := network + Scheme + host + ":" + digits;
    assert addr == network + Scheme + address;
    LowerParts(network, host, digits);
    SchemeAt(network, address);
    NoSchemeInAddress(host, digits);
    ColonAt(host, digits);
    NoColonInDigits(digits);
    ParseIntDecimal(port);
  }

  lemma LowerParts(network: string, host: string, digits: string)
    requires IsLower(network) && IsLower(host) && AllDigits(digits)
    ensures Lower(network + Scheme + (host + ":" + digits)) == network + Scheme + (host + ":" + digits)
  {
    LowerConcat(network + Scheme, host + ":" + digits);
    LowerConcat(network, Scheme);
    LowerConcat(host + ":", digits);
    LowerConcat(host, ":");
    LowerOfLower(network);
    LowerOfLower(host);
    LowerOfLower(digits);
    LowerOfLower(Scheme);
    LowerOfLower(":");
  }

  /** The first "://" follows a network with no colon. */
  lemma SchemeAt(network: string, address: string)
    requires forall i :: 0 <= i < |network| ==> network[i] != ':'
    ensures Index(network + Scheme + address, Scheme) == |network|
    ensures Before(network + Scheme + address, Scheme) == network
    ensures After(network + Scheme + address, Scheme) == address
  {
    var s := network + Scheme + address;
    forall j | 0 <= j < |network|
      ensures !Occurs(s, Scheme, j)
    {
      if j + 3 <= |s| {
        assert s[j..j + 3][0] == s[j] == network[j];
      }
    }
    IndexAfterPrefix(network, Scheme, address);
  }

  /** The first colon follows a host with no colon. */
  lemma ColonAt(host: string, digits: string)
    requires forall i :: 0 <= i < |host| ==> host[i] != ':'
    ensures Index(host + ":" + digits, ":") == |host|
    ensures After(host + ":" + digits, ":") == digits
  {
    forall j | 0 <= j < |host|
      ensures !Occurs(host + ":" + digits, ":", j)
    {
      assert (host + ":" + digits)[j..j + 1][0] == host[j];
    }
    IndexAfterPrefix(host, ":", digits);
  }

  lemma NoColonInDigits(digits: string)
    requires AllDigits(digits)
    ensures Index(digits, ":") < 0 && Before(digits, ":") == digits
  {
    forall j | 0 <= j
      ensures !Occurs(digits, ":", j)
    {
      if j + 1 <= |digits| {
        assert digits[j..j + 1][0] == digits[j];
      }
    }
  }

  /** A host with no colon, a colon, then digits: no "://" in it. */
  lemma NoSchemeInAddress(host: string, digits: string)
    requires forall i :: 0 <= i < |host| ==> host[i] != ':'
    requires AllDigits(digits)
    ensures Index(host + ":" + digits, Scheme) < 0
    ensures Before(host + ":" + digits, Scheme) == host + ":" + digits
  {
    var s := host + ":" + digits;
    forall j | 0 <= j
      ensures !Occurs(s, Scheme, j)
    {
      if j + 3 <= |s| {
        assert s[j..j + 3][0] == s[j];
        assert s[j..j + 3][1] == s[j + 1];
        if j < |host| {
          assert s[j] == host[j];
        } else if j == |host| {
          assert s[j + 1] == digits[0];
        } else {
          assert s[j] == digits[j - |host| - 1];
        }
      }
    }
  }

  /** Without a scheme the address is dialled as given, lower-cased. */
  lemma ParseAddrPlain(addr: string)
    requires forall i :: 0 <= i < |addr| ==> addr[i] != ':'
    ensures HasPort(addr) && ParseAddr(addr) == Addr("tcp", Lower(addr), 0)
  {
    var lower := Lower(addr);
    forall i | 0 <= i < |lower|
      ensures lower[i] != ':'
    {
    }
    NoSchemeWithoutColon(lower);
  }

  lemma NoSchemeWithoutColon(s: string)
    requires forall i :: 0 <= i < |s| ==> s[i] != ':'
    ensures Index(s, Scheme) < 0
  {
    forall j | 0 <= j
      ensures !Occurs(s, Scheme, j)
    {
      if j + 3 <= |s| {
        assert s[j..j + 3][0] == s[j];
      }
    }
  }
}
