/** The text operations the configuration and sidecar code relies on: UTF-8, hexadecimal, lines,
    trimming and decimal numbers. */
module Text {
  import opened Prelude

  // ---- White space and lines ----

  /** The characters `str::trim` removes (Unicode property White_Space). */
  predicate IsSpace(c: char) {
    var n := c as int;
    || 0x09 <= n <= 0x0D || n == 0x20 || n == 0x85 || n == 0xA0 || n == 0x1680
    || 0x2000 <= n <= 0x200A || n == 0x2028 || n == 0x2029 || n == 0x202F || n == 0x205F || n == 0x3000
  }

  /** The twenty-five code points of the property. */
  const WHITE_SPACE: set<int> := {
    0x09, 0x0A, 0x0B, 0x0C, 0x0D, 0x20, 0x85, 0xA0, 0x1680, 0x2000, 0x2001, 0x2002, 0x2003, 0x2004, 0x2005, 0x2006,
    0x2007, 0x2008, 0x2009, 0x200A, 0x2028, 0x2029, 0x202F, 0x205F, 0x3000}

  lemma SpaceIsWhiteSpace(c: char)
    ensures IsSpace(c) <==> c as int in WHITE_SPACE
  {
  }

  function TrimStart(s: string): string {
    if s != "" && IsSpace(s[0]) then TrimStart(s[1..]) else s
  }

  function TrimEnd(s: string): string {
    if s != "" && IsSpace(s[|s| - 1]) then TrimEnd(s[..|s| - 1]) else s
  }

  function Trim(s: string): string { TrimEnd(TrimStart(s)) }

  /** Nothing to trim at either end. */
  predicate Trimmed(s: string) { s != "" ==> !IsSpace(s[0]) && !IsSpace(s[|s| - 1]) }

  lemma {:induction false} TrimEndKeepsStart(s: string)
    ensures TrimEnd(s) <= s
    ensures TrimEnd(s) != "" ==> !IsSpace(TrimEnd(s)[|TrimEnd(s)| - 1])
  {
    if s != "" && IsSpace(s[|s| - 1]) {
      TrimEndKeepsStart(s[..|s| - 1]);
      assert s[..|s| - 1] <= s;
    }
  }

  lemma {:induction false} TrimStartLeads(s: string)
    ensures TrimStart(s) != "" ==> !IsSpace(TrimStart(s)[0])
    ensures |TrimStart(s)| <= |s|
    ensures TrimStart(s) == s || |TrimStart(s)| < |s|
  {
    if s != "" && IsSpace(s[0]) {
      TrimStartLeads(s[1..]);
    }
  }

  /** Trimming leaves a trimmed text, and leaves a text alone exactly when it is trimmed. */
  lemma TrimIsExact(s: string)
    ensures Trimmed(Trim(s))
    ensures Trim(s) == s <==> Trimmed(s)
    ensures Trim(Trim(s)) == Trim(s)
  {
    TrimStartLeads(s);
    TrimEndKeepsStart(TrimStart(s));
    TrimStartLeads(Trim(s));
    TrimEndKeepsStart(Trim(s));
  }

  ghost predicate AllSpace(s: string) { forall i :: 0 <= i < |s| ==> IsSpace(s[i]) }

  lemma {:induction false} TrimStartDrops(s: string) returns (i: nat)
    ensures i <= |s| && AllSpace(s[..i]) && TrimStart(s) == s[i..]
    decreases |s|
  {
    i := 0;
    if s != "" && IsSpace(s[0]) {
      var k := TrimStartDrops(s[1..]);
      i := k + 1;
      assert s[..i] == [s[0]] + s[1..][..k] && s[i..] == s[1..][k..];
    }
  }

  lemma {:induction false} TrimEndDrops(s: string) returns (j: nat)
    ensures j <= |s| && AllSpace(s[j..]) && TrimEnd(s) == s[..j]
    decreases |s|
  {
    j := |s|;
    if s != "" && IsSpace(s[|s| - 1]) {
      var n := |s| - 1;
      var front := s[..n];
      j := TrimEndDrops(front);
      assert s == front + [s[n]];
      assert s[..j] == front[..j];
      assert s[j..] == front[j..] + [s[n]];
    } else {
      assert s[..j] == s;
    }
  }

  /** Trimming takes away white space at both ends and nothing else. */
  lemma TrimIsMiddle(s: string) returns (i: nat, j: nat)
    ensures i <= j <= |s| && AllSpace(s[..i]) && AllSpace(s[j..]) && Trim(s) == s[i..j] && Trimmed(Trim(s))
  {
    i := TrimStartDrops(s);
    var k := TrimEndDrops(s[i..]);
    j := i + k;
    assert s[i..][..k] == s[i..j] && s[i..][k..] == s[j..];
    TrimIsExact(s);
  }

  /** The text before the first line feed. */
  function FirstLine(s: string): string {
    if s == "" || s[0] == '\n' then "" else [s[0]] + FirstLine(s[1..])
  }

  lemma {:induction false} FirstLineExtent(s: string)
    ensures FirstLine(s) <= s && '\n' !in FirstLine(s)
    ensures FirstLine(s) == s <==> '\n' !in s
    ensures |FirstLine(s)| < |s| ==> s[|FirstLine(s)|] == '\n'
  {
    if s != "" && s[0] != '\n' {
      FirstLineExtent(s[1..]);
      assert s == [s[0]] + s[1..];
    }
  }

  function DropCarriageReturn(s: string): string {
    if s != "" && s[|s| - 1] == '\r' then s[..|s| - 1] else s
  }

  /** `str::lines`. */
  function Lines(s: string): seq<string>
    decreases |s|
  {
    if s == "" then []
    else
      FirstLineExtent(s);
      var line := FirstLine(s);
      if line == s then [s]
      else [DropCarriageReturn(line)] + Lines(s[|line| + 1..])
  }

  lemma {:induction false} FirstLineOf(line: string, rest: string)
    requires '\n' !in line
    ensures FirstLine(line + "\n" + rest) == line
  {
    var s := line + "\n" + rest;
    if line != "" {
      assert s[1..] == line[1..] + "\n" + rest;
      FirstLineOf(line[1..], rest);
      assert line == [line[0]] + line[1..];
    }
  }

  lemma LinesStep(line: string, rest: string)
    requires '\n' !in line && DropCarriageReturn(line) == line
    ensures Lines(line + "\n" + rest) == [line] + Lines(rest)
  {
    var s := line + "\n" + rest;
    FirstLineOf(line, rest);
    assert s[|line| + 1..] == rest;
  }

  /** A line ends at its line feed, and a carriage return before that is no part of it; what follows the last line feed
      is a line unless it is empty. */
  lemma LinesIsExact(line: string, rest: string)
    requires '\n' !in line
    ensures Lines("") == [] && (line != "" ==> Lines(line) == [line])
    ensures Lines(line + "\n" + rest) ==
              [if |line| > 0 && line[|line| - 1] == '\r' then line[..|line| - 1] else line] + Lines(rest)
  {
    var s := line + "\n" + rest;
    FirstLineOf(line, rest);
    FirstLineExtent(line);
    assert s[|line| + 1..] == rest;
  }

  function StripPrefix(s: string, prefix: string): Option<string> {
    if prefix <= s then Some(s[|prefix|..]) else None
  }

  // ---- UTF-8 ----

  function Utf8Char(c: char): (r: seq<byte>)
    ensures 1 <= |r| <= 4
  {
    var n := c as int;
    if n < 0x80 then [n]
    else if n < 0x800 then [0xC0 + n / 64, 0x80 + n % 64]
    else if n < 0x1_0000 then [0xE0 + n / 4096, 0x80 + n / 64 % 64, 0x80 + n % 64]
    else [0xF0 + n / 262144, 0x80 + n / 4096 % 64, 0x80 + n / 64 % 64, 0x80 + n % 64]
  }

  function Utf8(s: string): seq<byte> {
    if s == "" then [] else Utf8Char(s[0]) + Utf8(s[1..])
  }

  predicate Continuation(b: byte) { 0x80 <= b < 0xC0 }

  predicate ScalarValue(n: int) { 0 <= n < 0xD800 || 0xE000 <= n < 0x11_0000 }

  /** The number of bytes and the code point of the first character; none when it is ill-formed
      (overlong, a surrogate, out of range or cut short). */
  function FirstScalar(b: seq<byte>): Option<(nat, int)>
    requires b != []
  {
    if b[0] < 0x80 then Some((1, b[0]))
    else if 0xC0 <= b[0] < 0xE0 && |b| >= 2 && Continuation(b[1]) then
      var n: int := (b[0] as int - 0xC0) * 64 + (b[1] as int - 0x80);
      if n >= 0x80 then Some((2, n)) else None
    else if 0xE0 <= b[0] < 0xF0 && |b| >= 3 && Continuation(b[1]) && Continuation(b[2]) then
      var n: int := (b[0] as int - 0xE0) * 4096 + (b[1] as int - 0x80) * 64 + (b[2] as int - 0x80);
      if n >= 0x800 && ScalarValue(n) then Some((3, n)) else None
    else if 0xF0 <= b[0] && |b| >= 4 && Continuation(b[1]) && Continuation(b[2]) && Continuation(b[3]) then
      var n: int := (b[0] as int - 0xF0) * 262144 + (b[1] as int - 0x80) * 4096
                    + (b[2] as int - 0x80) * 64 + (b[3] as int - 0x80);
      if n >= 0x1_0000 && ScalarValue(n) then Some((4, n)) else None
    else None
  }

  /** `String::from_utf8`. */
  function FromUtf8(b: seq<byte>): Option<string>
    decreases |b|
  {
    if b == [] then Some("")
    else
      var first := FirstScalar(b);
      if first.None? then None
      else
        var rest := FromUtf8(b[first.value.0..]);
        if rest.None? then None else Some([first.value.1 as char] + rest.value)
  }

  lemma FirstScalarOf(c: char, rest: seq<byte>)
    ensures FirstScalar(Utf8Char(c) + rest) == Some((|Utf8Char(c)|, c as int))
  {
    var n := c as int;
    Sixes(n);
    var b := Utf8Char(c) + rest;
    if n >= 0x1_0000 {
      assert b[0] == 0xF0 + n / 262144 && b[1] == 0x80 + n / 4096 % 64;
      assert b[2] == 0x80 + n / 64 % 64 && b[3] == 0x80 + n % 64;
    }
  }

  /** A code point and its groups of six bits. */
  lemma Sixes(n: nat)
    ensures n == n / 64 * 64 + n % 64
    ensures n / 64 == n / 4096 * 64 + n / 64 % 64
    ensures n / 4096 == n / 262144 * 64 + n / 4096 % 64
  {
  }

  lemma {:induction false} Utf8RoundTrips(s: string)
    ensures FromUtf8(Utf8(s)) == Some(s)
  {
    if s != "" {
      FirstScalarOf(s[0], Utf8(s[1..]));
      Utf8RoundTrips(s[1..]);
      assert Utf8(s)[|Utf8Char(s[0])|..] == Utf8(s[1..]);
      assert s == [s[0]] + s[1..];
    }
  }

  /** A character read is one whose encoding stands there. */
  lemma ScalarIsEncoded(b: seq<byte>)
    requires b != [] && FirstScalar(b).Some?
    ensures var (n, c) := FirstScalar(b).value;
            ScalarValue(c) && n <= |b| && b[..n] == Utf8Char(c as char)
  {
    var (n, c) := FirstScalar(b).value;
    if n == 1 {
      assert b[..1] == [b[0]];
    } else if n == 2 {
      SixBits(b[0] - 0xC0, b[1] - 0x80);
      assert b[..2] == [b[0], b[1]];
    } else if n == 3 {
      SixBits(b[0] - 0xE0, b[1] - 0x80);
      SixBits((b[0] as int - 0xE0) * 64 + (b[1] as int - 0x80), b[2] - 0x80);
      assert c / 4096 == c / 64 / 64;
      assert b[..3] == [b[0], b[1], b[2]];
    } else {
      FourBytes(b, c);
    }
  }

  lemma SixBits(high: int, low: int)
    requires 0 <= low < 64
    ensures (high * 64 + low) / 64 == high && (high * 64 + low) % 64 == low
  {
  }

  lemma FourBytes(b: seq<byte>, c: int)
    requires |b| >= 4 && FirstScalar(b) == Some((4, c))
    ensures ScalarValue(c) && b[..4] == Utf8Char(c as char)
  {
    var b0: int, b1: int, b2: int, b3: int := b[0] - 0xF0, b[1] - 0x80, b[2] - 0x80, b[3] - 0x80;
    SixBits(b0, b1);
    SixBits(b0 * 64 + b1, b2);
    SixBits((b0 * 64 + b1) * 64 + b2, b3);
    assert c == ((b0 * 64 + b1) * 64 + b2) * 64 + b3;
    assert c / 4096 == c / 64 / 64 && c / 262144 == c / 64 / 64 / 64;
    assert b[..4] == [b[0], b[1], b[2], b[3]];
  }

  /** Exactly the encodings are decoded: no overlong form, no surrogate, nothing cut short. */
  lemma {:induction false} FromUtf8IsExact(b: seq<byte>, s: string)
    ensures FromUtf8(b) == Some(s) <==> b == Utf8(s)
    decreases |b|
  {
    if b == Utf8(s) { Utf8RoundTrips(s); }
    if FromUtf8(b) == Some(s) && b != [] {
      var (n, c) := FirstScalar(b).value;
      ScalarIsEncoded(b);
      hide FirstScalar, Utf8Char;
      FromUtf8IsExact(b[n..], s[1..]);
      assert s[0] == c as char && FromUtf8(b[n..]) == Some(s[1..]);
      assert b == b[..n] + b[n..];
    }
  }

  // ---- Hexadecimal ----

  function HexChar(d: int): char
    requires 0 <= d < 16
  {
    if d < 10 then ('0' as int + d) as char else ('a' as int + d - 10) as char
  }

  function HexDigit(c: char): Option<int> {
    if '0' <= c <= '9' then Some(c as int - '0' as int)
    else if 'a' <= c <= 'f' then Some(c as int - 'a' as int + 10)
    else if 'A' <= c <= 'F' then Some(c as int - 'A' as int + 10)
    else None
  }

  function HexEncode(b: seq<byte>): string {
    if b == [] then "" else [HexChar(b[0] / 16), HexChar(b[0] % 16)] + HexEncode(b[1..])
  }

  /** The byte two digits stand for. */
  function HexByte(high: char, low: char): Option<byte> {
    var h, l := HexDigit(high), HexDigit(low);
    if h.None? || l.None? || !(0 <= h.value * 16 + l.value < 256) then None else Some(h.value * 16 + l.value)
  }

  function HexDecode(s: string): Option<seq<byte>> {
    if |s| % 2 != 0 then None
    else if s == "" then Some([])
    else
      var first, rest := HexByte(s[0], s[1]), HexDecode(s[2..]);
      if first.None? || rest.None? then None else Some([first.value] + rest.value)
  }

  lemma HexDigitOf(d: int)
    requires 0 <= d < 16
    ensures HexDigit(HexChar(d)) == Some(d)
  {
  }

  predicate HexText(s: string) { forall i :: 0 <= i < |s| ==> HexDigit(s[i]).Some? }

  lemma HexByteOf(b: byte)
    ensures HexByte(HexChar(b / 16), HexChar(b % 16)) == Some(b)
  {
    HexDigitOf(b / 16);
    HexDigitOf(b % 16);
    hide HexDigit, HexChar;
  }

  lemma HexStep(s: string)
    requires s != "" && |s| % 2 == 0
    ensures var first, rest := HexByte(s[0], s[1]), HexDecode(s[2..]);
            HexDecode(s) == if first.None? || rest.None? then None else Some([first.value] + rest.value)
  {
    hide HexByte;
  }

  lemma HexPair(b: byte, rest: string)
    requires |rest| % 2 == 0
    ensures var s := [HexChar(b / 16), HexChar(b % 16)] + rest;
            HexDecode(s) == (match HexDecode(rest) case None => None case Some(tail) => Some([b] + tail))
  {
    hide HexByte, HexChar, HexDecode;
    HexByteOf(b);
    var s := [HexChar(b / 16), HexChar(b % 16)] + rest;
    assert s[2..] == rest && |s| == |rest| + 2 && s[0] == HexChar(b / 16) && s[1] == HexChar(b % 16);
    HexStep(s);
  }

  lemma {:induction false} HexRoundTrips(b: seq<byte>)
    ensures |HexEncode(b)| % 2 == 0
    ensures HexDecode(HexEncode(b)) == Some(b)
    ensures HexText(HexEncode(b))
  {
    if b != [] {
      HexRoundTrips(b[1..]);
      HexPair(b[0], HexEncode(b[1..]));
      HexDigitOf(b[0] / 16);
      HexDigitOf(b[0] % 16);
      assert b == [b[0]] + b[1..];
    }
  }

  /** Two more digits at the front of what is left to print. */
  lemma HexGrows(done: string, b: byte, rest: seq<byte>)
    ensures done + HexEncode([b] + rest) == done + [HexChar(b / 16)] + [HexChar(b % 16)] + HexEncode(rest)
  {
    assert ([b] + rest)[1..] == rest;
    hide HexEncode, HexChar;
  }

  /** Two digits a byte, the high one first, in lower case. */
  lemma {:induction false} HexIsDigits(b: seq<byte>, i: nat)
    requires i < |b|
    ensures |HexEncode(b)| == 2 * |b|
    ensures HexEncode(b)[2 * i] == "0123456789abcdef"[b[i] / 16]
    ensures HexEncode(b)[2 * i + 1] == "0123456789abcdef"[b[i] % 16]
    decreases |b|
  {
    HexCharIs(b[0] / 16);
    HexCharIs(b[0] % 16);
    hide HexChar;
    if |b| > 1 { HexIsDigits(b[1..], if i == 0 then 0 else i - 1); }
  }

  /** Digits of either case are read. */
  lemma HexDigitIsExact(c: char, d: int)
    requires 0 <= d < 16
    ensures HexDigit(c) == Some(d) <==> c == "0123456789abcdef"[d] || c == "0123456789ABCDEF"[d]
  {
  }

  ghost predicate IsHex(c: char, d: int)
    requires 0 <= d < 16
  {
    c == "0123456789abcdef"[d] || c == "0123456789ABCDEF"[d]
  }

  /** Two digits a byte, of either case. */
  ghost predicate HexOf(s: string, b: seq<byte>) {
    |s| == 2 * |b| && forall i :: 0 <= i < |b| ==> IsHex(s[2 * i], b[i] / 16) && IsHex(s[2 * i + 1], b[i] % 16)
  }

  lemma HexByteIsExact(high: char, low: char, b: byte)
    ensures HexByte(high, low) == Some(b) <==> IsHex(high, b / 16) && IsHex(low, b % 16)
  {
    HexDigitIsExact(high, b / 16);
    HexDigitIsExact(low, b % 16);
    HexDigitRange(high);
    HexDigitRange(low);
    hide HexDigit, IsHex;
  }

  lemma HexDigitRange(c: char)
    ensures HexDigit(c).Some? ==> 0 <= HexDigit(c).value < 16
  {
  }

  lemma HexOfStep(s: string, b: seq<byte>)
    requires |s| >= 2 && |b| >= 1
    ensures HexOf(s, b) <==> IsHex(s[0], b[0] / 16) && IsHex(s[1], b[0] % 16) && HexOf(s[2..], b[1..])
  {
    var rest, tail := s[2..], b[1..];
    hide IsHex;
    if HexOf(s, b) {
      assert IsHex(s[2 * 0], b[0] / 16) && IsHex(s[2 * 0 + 1], b[0] % 16);
      forall i | 0 <= i < |tail| ensures IsHex(rest[2 * i], tail[i] / 16) && IsHex(rest[2 * i + 1], tail[i] % 16) {
        assert tail[i] == b[i + 1] && rest[2 * i] == s[2 * (i + 1)] && rest[2 * i + 1] == s[2 * (i + 1) + 1];
      }
    }
    if IsHex(s[0], b[0] / 16) && IsHex(s[1], b[0] % 16) && HexOf(rest, tail) {
      forall i | 0 <= i < |b| ensures IsHex(s[2 * i], b[i] / 16) && IsHex(s[2 * i + 1], b[i] % 16) {
        if i > 0 {
          assert b[i] == tail[i - 1] && s[2 * i] == rest[2 * (i - 1)] && s[2 * i + 1] == rest[2 * (i - 1) + 1];
        }
      }
    }
  }

  /** Exactly the texts of two digits a byte are decoded. */
  lemma {:induction false} HexDecodeIsExact(s: string, b: seq<byte>)
    ensures HexDecode(s) == Some(b) <==> HexOf(s, b)
    decreases |s|
  {
    if |s| % 2 == 0 && s != "" {
      if b != [] {
        HexStep(s);
        HexByteIsExact(s[0], s[1], b[0]);
        HexDecodeIsExact(s[2..], b[1..]);
        HexOfStep(s, b);
        hide HexByte, HexOf, IsHex, HexDecode;
        assert b == [b[0]] + b[1..];
      } else {
        HexStep(s);
        hide HexByte, IsHex, HexDecode;
      }
    }
  }

  lemma HexCharIs(d: int)
    requires 0 <= d < 16
    ensures HexChar(d) == "0123456789abcdef"[d]
  {
  }

  // ---- Decimal ----

  function Decimal(n: nat): string {
    if n < 10 then [HexChar(n)] else Decimal(n / 10) + [HexChar(n % 10)]
  }

  predicate IsDigit(c: char) { '0' <= c <= '9' }

  function DigitsValue(s: string): Option<nat> {
    if s == "" then Some(0)
    else
      var c, rest := s[|s| - 1], DigitsValue(s[..|s| - 1]);
      if !IsDigit(c) || rest.None? then None
      else Some(rest.value * 10 + (c as int - '0' as int))
  }

  /** `str::parse::<u64>`: an optional plus sign, then at least one digit, within range. */
  function ParseU64(s: string): Option<u64> {
    var digits := if s != "" && s[0] == '+' then s[1..] else s;
    if digits == "" then None
    else match DigitsValue(digits)
      case None => None
      case Some(n) => if n < U64_LIMIT then Some(n) else None
  }

  lemma {:induction false} DecimalShape(n: nat)
    ensures Decimal(n) != "" && DigitsValue(Decimal(n)) == Some(n)
    ensures forall i :: 0 <= i < |Decimal(n)| ==> IsDigit(Decimal(n)[i])
  {
    if n >= 10 {
      DecimalShape(n / 10);
      assert Decimal(n)[..|Decimal(n)| - 1] == Decimal(n / 10);
    }
  }

  /** Printing a 64-bit number and parsing it back, with nothing to trim. */
  lemma DecimalRoundTrips(n: u64)
    ensures ParseU64(Decimal(n)) == Some(n) && Trim(Decimal(n)) == Decimal(n) && Decimal(n) != ""
  {
    DecimalShape(n);
    TrimIsExact(Decimal(n));
    assert IsDigit(Decimal(n)[0]);
  }

  /** The ten digits, and one more digit for ten times the number. */
  lemma DecimalIsExact(m: nat, d: nat)
    requires d < 10
    ensures Decimal(d) == ["0123456789"[d]]
    ensures m > 0 ==> Decimal(10 * m + d) == Decimal(m) + ["0123456789"[d]]
  {
    assert (10 * m + d) / 10 == m && (10 * m + d) % 10 == d;
  }

  function Zeros(k: nat): string { seq(k, i => '0') }

  lemma {:induction false} ZerosAreNothing(k: nat)
    ensures DigitsValue(Zeros(k)) == Some(0)
  {
    if k > 0 {
      ZerosAreNothing(k - 1);
      assert Zeros(k)[..k - 1] == Zeros(k - 1);
    }
  }

  lemma {:induction false} LeadingZeros(k: nat, n: nat)
    ensures DigitsValue(Zeros(k) + Decimal(n)) == Some(n)
  {
    var s, m, d := Zeros(k) + Decimal(n), n / 10, n % 10;
    DecimalIsExact(m, d);
    if n < 10 {
      assert s[..|s| - 1] == Zeros(k);
      ZerosAreNothing(k);
    } else {
      assert s[..|s| - 1] == Zeros(k) + Decimal(m);
      LeadingZeros(k, m);
    }
  }

  lemma {:induction false} ReadIsPadded(s: string, n: nat) returns (k: nat)
    requires s != "" && DigitsValue(s) == Some(n)
    ensures s == Zeros(k) + Decimal(n)
  {
    var front, d := s[..|s| - 1], s[|s| - 1] as int - '0' as int;
    assert s == front + ["0123456789"[d]];
    if front == "" {
      k := 0;
      DecimalIsExact(0, d);
    } else {
      var m := DigitsValue(front).value;
      k := ReadIsPadded(front, m);
      DecimalIsExact(m, d);
      if m == 0 {
        assert front == Zeros(k + 1) by { DecimalIsExact(0, 0); }
        k := k + 1;
      }
    }
  }

  /** What parses as a number: its decimal digits after any zeros, with or without a plus sign, within 64 bits. */
  lemma ParseU64IsExact(s: string, n: u64)
    ensures ParseU64(s) == Some(n) <==> exists k :: s == Zeros(k) + Decimal(n) || s == "+" + (Zeros(k) + Decimal(n))
  {
    hide DigitsValue, Decimal;
    if ParseU64(s) == Some(n) {
      var digits := if s[0] == '+' then s[1..] else s;
      var k := ReadIsPadded(digits, n);
      assert s == digits || s == "+" + digits;
      assert s == Zeros(k) + Decimal(n) || s == "+" + (Zeros(k) + Decimal(n));
    }
    if k :| s == Zeros(k) + Decimal(n) || s == "+" + (Zeros(k) + Decimal(n)) {
      PaddedIsRead(s, k, n);
    }
  }

  lemma PaddedIsRead(s: string, k: nat, n: u64)
    requires s == Zeros(k) + Decimal(n) || s == "+" + (Zeros(k) + Decimal(n))
    ensures ParseU64(s) == Some(n)
  {
    var digits := Zeros(k) + Decimal(n);
    LeadingZeros(k, n);
    DecimalShape(n);
    assert digits != "" && IsDigit(digits[0]) by { assert k > 0 ==> digits[0] == '0'; }
    hide DigitsValue, Decimal, Zeros;
    if s != digits {
      assert s[1..] == digits && s[0] == '+';
    }
  }
}
