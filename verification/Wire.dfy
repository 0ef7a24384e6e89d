/** What the relay and the direct frame codecs share: big-endian fields and the sixteen-byte header
    whose length field lets a later version append fields an older receiver skips. */
module Wire {
  import opened Prelude

  // ---- Big-endian numbers ----

  function Power256(width: nat): nat { if width == 0 then 1 else 256 * Power256(width - 1) }

  function Big(n: nat, width: nat): (r: seq<byte>)
    ensures |r| == width
  {
    if width == 0 then [] else Big(n / 256, width - 1) + [n % 256]
  }

  function Value(s: seq<byte>): (n: nat)
    ensures n < Power256(|s|)
  {
    if s == [] then 0 else Value(s[..|s| - 1]) * 256 + s[|s| - 1]
  }

  lemma {:induction false} ValueOfBig(n: nat, width: nat)
    requires n < Power256(width)
    ensures Value(Big(n, width)) == n
  {
    if width > 0 {
      ValueOfBig(n / 256, width - 1);
      assert Big(n, width)[..width - 1] == Big(n / 256, width - 1);
    }
  }

  lemma {:induction false} BigOfValue(s: seq<byte>)
    ensures Big(Value(s), |s|) == s
  {
    if s != [] {
      var front, last := s[..|s| - 1], s[|s| - 1];
      BigOfValue(front);
      assert Value(s) / 256 == Value(front) && Value(s) % 256 == last;
      assert s == front + [last];
    }
  }

  lemma Widths()
    ensures Power256(1) == 256 && Power256(2) == U16_LIMIT && Power256(4) == U32_LIMIT && Power256(8) == U64_LIMIT
    ensures Power256(16) == 0x1_0000_0000_0000_0000_0000_0000_0000_0000
  {
    assert Power256(4) == 256 * Power256(3) == 65536 * Power256(2);
    assert Power256(8) == 65536 * Power256(6) == U32_LIMIT * Power256(4);
    assert Power256(12) == 65536 * Power256(10) == U32_LIMIT * Power256(8);
    assert Power256(16) == 65536 * Power256(14) == U32_LIMIT * Power256(12);
  }

  /** `put_i32` and `get_i32`: two's complement. */
  function FromSigned(n: i32): u32 { if n < 0 then n + 0x1_0000_0000 else n }

  function ToSigned(n: u32): i32 { if n >= 0x8000_0000 then n - 0x1_0000_0000 else n }

  // ---- Fixed-width fields ----

  function Total(widths: seq<nat>): nat { if widths == [] then 0 else widths[0] + Total(widths[1..]) }

  ghost predicate Fit(widths: seq<nat>, values: seq<nat>) {
    |values| == |widths| && forall i :: 0 <= i < |widths| ==> values[i] < Power256(widths[i])
  }

  function Print(widths: seq<nat>, values: seq<nat>): (r: seq<byte>)
    requires |values| == |widths|
    ensures |r| == Total(widths)
  {
    if widths == [] then [] else Big(values[0], widths[0]) + Print(widths[1..], values[1..])
  }

  function Parse(widths: seq<nat>, s: seq<byte>): (values: seq<nat>)
    requires |s| >= Total(widths)
    ensures |values| == |widths|
  {
    if widths == [] then [] else [Value(s[..widths[0]])] + Parse(widths[1..], s[widths[0]..])
  }

  lemma {:induction false} ParseOfPrint(widths: seq<nat>, values: seq<nat>, rest: seq<byte>)
    requires Fit(widths, values)
    ensures Parse(widths, Print(widths, values) + rest) == values
  {
    if widths != [] {
      var s, tail := Print(widths, values) + rest, Print(widths[1..], values[1..]);
      assert s == Big(values[0], widths[0]) + (tail + rest);
      assert s[..widths[0]] == Big(values[0], widths[0]) && s[widths[0]..] == tail + rest;
      ParseFirst(widths, s);
      ValueOfBig(values[0], widths[0]);
      hide Parse, Value, Big;
      ParseOfPrint(widths[1..], values[1..], rest);
      assert values == [values[0]] + values[1..];
    }
  }

  lemma {:induction false} PrintOfParse(widths: seq<nat>, s: seq<byte>)
    requires |s| >= Total(widths)
    ensures Fit(widths, Parse(widths, s)) && Print(widths, Parse(widths, s)) == s[..Total(widths)]
  {
    if widths != [] {
      var values := Parse(widths, s);
      BigOfValue(s[..widths[0]]);
      PrintOfParse(widths[1..], s[widths[0]..]);
      assert values[1..] == Parse(widths[1..], s[widths[0]..]);
      assert forall i :: 0 < i < |widths| ==> values[i] == values[1..][i - 1] && widths[i] == widths[1..][i - 1];
      assert s[..Total(widths)] == s[..widths[0]] + s[widths[0]..][..Total(widths[1..])];
    }
  }

  // ---- The common header ----

  const COMMON_HEADER_LEN: nat := 16

  /** The shortest header and the longest payload of one kind of frame. */
  datatype Layout = Layout(minimum: nat, maxPayload: nat)

  datatype Protocol = Protocol(magic: seq<byte>, major: byte, minor: byte, layouts: map<byte, Layout>)

  /** Both protocols are at minor version zero, with four magic bytes and room for every header. */
  ghost predicate Usable(p: Protocol) {
    && |p.magic| == 4 && p.minor == 0
    && forall k :: k in p.layouts ==>
         COMMON_HEADER_LEN <= p.layouts[k].minimum < U16_LIMIT && p.layouts[k].maxPayload < U32_LIMIT
  }

  datatype HeaderError =
    | TooShort | BadMagic | UnsupportedMajor(major: byte) | UnsupportedMinor(minor: byte) | UnknownKind(kind: byte)
    | UnsupportedFlags(flags: byte) | NonZeroReserved(reserved: nat) | BadHeaderLength(length: nat)
    | PayloadTooLarge(length: nat) | TrailingBytes

  datatype Envelope = Envelope(kind: byte, headerLen: nat, payloadLen: nat, body: seq<byte>)

  /** The sixteen header bytes. */
  function HeaderBytes(p: Protocol, kind: byte, headerLen: nat, payloadLen: nat): (r: seq<byte>)
    requires |p.magic| == 4
    ensures |r| == COMMON_HEADER_LEN
  {
    p.magic + [p.major, p.minor, kind, 0] + Big(headerLen, 2) + Big(0, 2) + Big(payloadLen, 4)
  }

  lemma ThirdPart(header: seq<byte>, fields: seq<byte>, extension: seq<byte>, payload: seq<byte>, at: nat)
    requires at == |header| + |fields|
    ensures (header + (fields + extension + payload))[at..at + |extension|] == extension
  {
  }

  /** The checks every received frame passes before its fields are read. */
  function Open(p: Protocol, b: seq<byte>): Result<Envelope, HeaderError>
    requires |p.magic| == 4
  {
    if |b| < COMMON_HEADER_LEN then Err(TooShort)
    else if b[..4] != p.magic then Err(BadMagic)
    else if b[4] != p.major then Err(UnsupportedMajor(b[4]))
    else if b[5] > p.minor then Err(UnsupportedMinor(b[5]))
    else if b[6] !in p.layouts then Err(UnknownKind(b[6]))
    else if b[7] != 0 then Err(UnsupportedFlags(b[7]))
    else
      var headerLen, reserved, payloadLen := Value(b[8..10]), Value(b[10..12]), Value(b[12..16]);
      var layout := p.layouts[b[6]];
      if reserved != 0 then Err(NonZeroReserved(reserved))
      else if headerLen < layout.minimum then Err(BadHeaderLength(headerLen))
      else if payloadLen > layout.maxPayload then Err(PayloadTooLarge(payloadLen))
      else if |b| < headerLen + payloadLen then Err(TooShort)
      else if |b| != headerLen + payloadLen then Err(TrailingBytes)
      else Ok(Envelope(b[6], headerLen, payloadLen, b[16..]))
  }

  /** Everything before the lengths is as this version expects. */
  ghost predicate Introduced(p: Protocol, b: seq<byte>)
    requires |b| >= COMMON_HEADER_LEN
  {
    b[..4] == p.magic && b[4] == p.major && b[5] <= p.minor && b[6] in p.layouts && b[7] == 0
  }

  ghost predicate Fitting(p: Protocol, e: Envelope) {
    && e.kind in p.layouts
    && p.layouts[e.kind].minimum <= e.headerLen < U16_LIMIT
    && e.payloadLen <= p.layouts[e.kind].maxPayload
    && COMMON_HEADER_LEN + |e.body| == e.headerLen + e.payloadLen
  }

  function Seal(p: Protocol, e: Envelope): seq<byte>
    requires |p.magic| == 4
  {
    HeaderBytes(p, e.kind, e.headerLen, e.payloadLen) + e.body
  }

  lemma OpenOfSeal(p: Protocol, e: Envelope)
    requires Usable(p) && Fitting(p, e)
    ensures Open(p, Seal(p, e)) == Ok(e)
  {
    var b := Seal(p, e);
    Widths();
    assert b[..4] == p.magic && b[4] == p.major && b[5] == p.minor && b[6] == e.kind && b[7] == 0;
    assert b[8..10] == Big(e.headerLen, 2) && b[10..12] == Big(0, 2) && b[12..16] == Big(e.payloadLen, 4);
    ValueOfBig(e.headerLen, 2);
    ValueOfBig(0, 2);
    ValueOfBig(e.payloadLen, 4);
    assert b[16..] == e.body;
  }

  lemma SealOfOpen(p: Protocol, b: seq<byte>)
    requires Usable(p) && Open(p, b).Ok?
    ensures Fitting(p, Open(p, b).value) && Seal(p, Open(p, b).value) == b
  {
    var e := Open(p, b).value;
    Widths();
    BigOfValue(b[8..10]);
    BigOfValue(b[10..12]);
    BigOfValue(b[12..16]);
    assert b == b[..4] + [b[4], b[5], b[6], b[7]] + b[8..10] + b[10..12] + b[12..16] + b[16..];
  }

  // ---- Reading and writing step by step ----

  lemma {:induction false} TotalAppend(widths: seq<nat>, width: nat)
    ensures Total(widths + [width]) == Total(widths) + width
  {
    if widths != [] {
      TotalAppend(widths[1..], width);
      assert (widths + [width])[1..] == widths[1..] + [width];
    }
  }

  lemma {:induction false} TotalConcat(a: seq<nat>, b: seq<nat>)
    ensures Total(a + b) == Total(a) + Total(b)
  {
    if a == [] {
      assert a + b == b;
    } else {
      TotalConcat(a[1..], b);
      assert (a + b)[1..] == a[1..] + b;
    }
  }

  lemma {:induction false} PrintAppend(widths: seq<nat>, values: seq<nat>, width: nat, value: nat)
    requires |values| == |widths|
    ensures Print(widths + [width], values + [value]) == Print(widths, values) + Big(value, width)
  {
    if widths != [] {
      PrintAppend(widths[1..], values[1..], width, value);
      assert (widths + [width])[1..] == widths[1..] + [width] && (values + [value])[1..] == values[1..] + [value];
    }
  }

  lemma ParseFirst(widths: seq<nat>, s: seq<byte>)
    requires widths != [] && |s| >= Total(widths)
    ensures Parse(widths, s) == [Value(s[..widths[0]])] + Parse(widths[1..], s[widths[0]..])
  {
    hide Value;
  }

  lemma {:induction false} ParseAppend(widths: seq<nat>, width: nat, s: seq<byte>)
    requires |s| >= Total(widths) + width
    ensures Total(widths + [width]) == Total(widths) + width
    ensures Parse(widths + [width], s) == Parse(widths, s) + [Value(s[Total(widths)..Total(widths) + width])]
  {
    TotalAppend(widths, width);
    var longer := widths + [width];
    ParseFirst(longer, s);
    if widths == [] {
      hide Value;
      assert longer[1..] == [];
    } else {
      ParseFirst(widths, s);
      hide Value, Parse;
      var head, rest, tail := widths[0], widths[1..], s[widths[0]..];
      assert longer[0] == head && longer[1..] == rest + [width];
      TotalAppend(rest, width);
      ParseAppend(rest, width, tail);
      SliceOfSlice(s, head, Total(rest), Total(rest) + width);
    }
  }

  lemma SliceOfSlice(s: seq<byte>, a: nat, i: nat, j: nat)
    requires i <= j && a + j <= |s|
    ensures s[a..][i..j] == s[a + i..a + j]
  {
  }

  /** A read position in a received frame, with what has been read since `start`. Reading past the
      end is ruled out by the preconditions. */
  class Cursor {
    var rest: seq<byte>
    ghost var start: seq<byte>
    ghost var widths: seq<nat>
    ghost var values: seq<nat>

    ghost predicate Valid() reads this {
      Total(widths) <= |start| && rest == start[Total(widths)..] && values == Parse(widths, start)
    }

    constructor (bytes: seq<byte>)
      ensures Valid() && rest == start == bytes && widths == []
    {
      rest, start, widths, values := bytes, bytes, [], [];
    }

    method Get(width: nat) returns (n: nat)
      requires Valid() && width <= |rest|
      modifies this
      ensures Valid() && start == old(start) && |rest| == |old(rest)| - width
      ensures widths == old(widths) + [width] && values == old(values) + [n]
      ensures n == Value(old(rest)[..width])
    {
      n := Value(rest[..width]);
      rest := rest[width..];
      ParseAppend(widths, width, start);
      assert start[Total(widths)..Total(widths) + width] == old(rest)[..width];
      widths, values := widths + [width], values + [n];
    }

    /** Moves on without reading, and starts a new group of fields. */
    method Skip(n: nat)
      requires Valid() && n <= |rest|
      modifies this
      ensures Valid() && rest == start == old(rest)[n..] && widths == []
    {
      rest := rest[n..];
      start, widths, values := rest, [], [];
    }

    /** One number read on its own. */
    method GetAlone(width: nat) returns (n: nat)
      requires Valid() && width <= |rest|
      modifies this
      ensures Valid() && rest == start == old(rest)[width..] && widths == []
      ensures n == Value(old(rest)[..width])
    {
      hide Value, Parse, Total;
      n := Value(rest[..width]);
      Skip(width);
    }

    /** The bytes before the lengths, read in the order their checks come. */
    method ReadPreamble(p: Protocol) returns (kind: Result<byte, HeaderError>)
      requires |p.magic| == 4 && Valid() && |rest| >= COMMON_HEADER_LEN
      modifies this
      ensures Valid()
      ensures kind.Err? <==> !Introduced(p, old(rest))
      ensures kind.Err? ==> Open(p, old(rest)) == Err(kind.error)
      ensures kind.Ok? ==> kind.value == old(rest)[6] && rest == start == old(rest)[8..] && widths == []
    {
      hide Parse, Total, Value;
      ghost var b := rest;
      if rest[..4] != p.magic { return Err(BadMagic); }
      Skip(4);
      var major := rest[0];
      Skip(1);
      var minor := rest[0];
      Skip(1);
      if major != p.major { return Err(UnsupportedMajor(major)); }
      if minor > p.minor { return Err(UnsupportedMinor(minor)); }
      var code := rest[0];
      Skip(1);
      if code !in p.layouts { return Err(UnknownKind(code)); }
      var flags := rest[0];
      Skip(1);
      if flags != 0 { return Err(UnsupportedFlags(flags)); }
      assert rest == b[8..];
      kind := Ok(code);
    }

    method ReadLengths() returns (headerLen: nat, reserved: nat, payloadLen: nat)
      requires Valid() && |rest| >= 8
      modifies this
      ensures Valid() && rest == start == old(rest)[8..] && widths == []
      ensures headerLen == Value(old(rest)[..2]) && reserved == Value(old(rest)[2..4])
      ensures payloadLen == Value(old(rest)[4..8])
    {
      hide Value, Parse, Total;
      ghost var b := rest;
      headerLen := GetAlone(2);
      SliceOfSlice(b, 2, 0, 2);
      reserved := GetAlone(2);
      SliceOfSlice(b, 2, 2, |b| - 2);
      SliceOfSlice(b, 4, 0, 4);
      payloadLen := GetAlone(4);
      SliceOfSlice(b, 4, 4, |b| - 4);
    }

    /** The whole header; afterwards the cursor is at the first field. */
    method ReadHeader(p: Protocol) returns (header: Result<Envelope, HeaderError>)
      requires Usable(p) && Valid()
      modifies this
      ensures Valid() && header == Open(p, old(rest))
      ensures header.Ok? ==> Fitting(p, header.value) && rest == start == header.value.body && widths == []
    {
      hide Parse, Total, Value;
      ghost var b := rest;
      var length := |rest|;
      if length < COMMON_HEADER_LEN { return Err(TooShort); }
      var kind := ReadPreamble(p);
      if kind.Err? { return Err(kind.error); }
      var headerLen, reserved, payloadLen := ReadLengths();
      SliceOfSlice(b, 8, 0, 2);
      SliceOfSlice(b, 8, 2, 4);
      SliceOfSlice(b, 8, 4, 8);
      SliceOfSlice(b, 8, 8, |b| - 8);
      var layout := p.layouts[kind.value];
      if reserved != 0 { return Err(NonZeroReserved(reserved)); }
      if headerLen < layout.minimum { return Err(BadHeaderLength(headerLen)); }
      if payloadLen > layout.maxPayload { return Err(PayloadTooLarge(payloadLen)); }
      if length < headerLen + payloadLen { return Err(TooShort); }
      if length != headerLen + payloadLen { return Err(TrailingBytes); }
      header := Ok(Envelope(kind.value, headerLen, payloadLen, rest));
      SealOfOpen(p, b);
    }
  }

  /** An output buffer, with the fields appended after `prefix`. */
  class Buffer {
    var bytes: seq<byte>
    ghost const prefix: seq<byte>
    ghost var widths: seq<nat>
    ghost var values: seq<nat>

    ghost predicate Valid() reads this {
      |values| == |widths| && bytes == prefix + Print(widths, values)
    }

    constructor (header: seq<byte>)
      ensures Valid() && prefix == header && widths == [] && values == []
    {
      bytes, prefix, widths, values := header, header, [], [];
    }

    method Put(n: nat, width: nat)
      requires Valid()
      modifies this
      ensures Valid() && widths == old(widths) + [width] && values == old(values) + [n]
    {
      bytes := bytes + Big(n, width);
      PrintAppend(widths, values, width, n);
      widths, values := widths + [width], values + [n];
    }
  }
}
