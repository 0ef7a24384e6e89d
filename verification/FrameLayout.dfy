/** The bytes of both frame formats, position by position: what the encoders write, exactly what the decoders accept
    and what they answer otherwise. */
module FrameLayout {
  import opened Prelude
  import opened Wire
  import RelayFrame
  import DirectFrame

  // ---- Numbers by their digits ----

  /** The base-256 digit of `n` at a place, counted from the least significant. */
  function Digit(n: nat, place: nat): byte { if place == 0 then n % 256 else Digit(n / 256, place - 1) }

  /** The `width` bytes from `at` on are the digits of `n`, the most significant first. */
  ghost predicate Digits(b: seq<byte>, at: nat, width: nat, n: nat) {
    at + width <= |b| && forall j :: at <= j < at + width ==> b[j] == Digit(n, at + width - 1 - j)
  }

  lemma {:induction false} BigIsDigits(n: nat, width: nat, i: nat)
    requires i < width
    ensures Big(n, width)[i] == Digit(n, width - 1 - i)
    decreases width
  {
    if i < width - 1 { BigIsDigits(n / 256, width - 1, i); }
  }

  lemma DigitsAreBig(b: seq<byte>, at: nat, width: nat, n: nat)
    requires at + width <= |b|
    ensures Digits(b, at, width, n) <==> b[at..at + width] == Big(n, width)
  {
    var part := b[at..at + width];
    forall i | 0 <= i < width ensures Big(n, width)[i] == Digit(n, width - 1 - i) && part[i] == b[at + i] {
      BigIsDigits(n, width, i);
    }
    hide Big, Digit;
    if part == Big(n, width) {
      forall j | at <= j < at + width ensures b[j] == Digit(n, at + width - 1 - j) {
        assert b[j] == part[j - at];
      }
    }
    if Digits(b, at, width, n) {
      forall i | 0 <= i < width ensures part[i] == Big(n, width)[i] {
        assert part[i] == b[at + i];
      }
    }
  }

  /** Numbers of these widths one after the other. */
  ghost predicate Row(b: seq<byte>, at: nat, widths: seq<nat>, values: seq<nat>)
    requires |values| == |widths|
    decreases |widths|
  {
    widths != [] ==> Digits(b, at, widths[0], values[0]) && Row(b, at + widths[0], widths[1..], values[1..])
  }

  lemma {:induction false} RowIsPrint(b: seq<byte>, at: nat, widths: seq<nat>, values: seq<nat>)
    requires |values| == |widths| && at + Total(widths) <= |b|
    ensures Row(b, at, widths, values) <==> b[at..at + Total(widths)] == Print(widths, values)
    decreases |widths|
  {
    if widths == [] {
      assert b[at..at] == [];
    } else {
      var w, rest := widths[0], Total(widths[1..]);
      DigitsAreBig(b, at, w, values[0]);
      RowIsPrint(b, at + w, widths[1..], values[1..]);
      var all, first, tail := b[at..at + w + rest], b[at..at + w], b[at + w..at + w + rest];
      assert all == first + tail;
      hide Digits, Big;
      var printed := Print(widths, values);
      assert printed[..w] == Big(values[0], w) && printed[w..] == Print(widths[1..], values[1..]);
      hide Print, Row;
      if all == printed { assert first == all[..w] && tail == all[w..]; }
    }
  }

  // ---- The common header ----

  /** The sixteen bytes of the header, and the payload after its length. */
  ghost predicate Headed(b: seq<byte>, magic: seq<byte>, major: byte, kind: byte, h: nat, payload: seq<byte>) {
    && 16 <= h < 0x1_0000 && |b| == h + |payload| && b[..4] == magic && b[4] == major && b[5] == 0
    && b[6] == kind && b[7] == 0 && Digits(b, 8, 2, h) && Digits(b, 10, 2, 0) && Digits(b, 12, 4, |payload|)
    && b[h..] == payload
  }

  lemma HeaderIsHeaded(p: Protocol, b: seq<byte>, kind: byte, h: nat, payloadLen: nat)
    requires |p.magic| == 4 && p.minor == 0 && |b| >= 16
    ensures b[..16] == HeaderBytes(p, kind, h, payloadLen) <==>
              && b[..4] == p.magic && b[4] == p.major && b[5] == 0 && b[6] == kind && b[7] == 0
              && Digits(b, 8, 2, h) && Digits(b, 10, 2, 0) && Digits(b, 12, 4, payloadLen)
  {
    DigitsAreBig(b, 8, 2, h);
    DigitsAreBig(b, 10, 2, 0);
    DigitsAreBig(b, 12, 4, payloadLen);
    hide Digits, Big;
    var header := HeaderBytes(p, kind, h, payloadLen);
    assert header[..4] == p.magic && header[4..8] == [p.major, 0, kind, 0];
    assert header[8..10] == Big(h, 2) && header[10..12] == Big(0, 2) && header[12..16] == Big(payloadLen, 4);
    hide HeaderBytes;
    HeaderParts(b[..16]);
    HeaderParts(header);
    assert b[..16][..4] == b[..4] && b[..16][8..10] == b[8..10] && b[..16][10..12] == b[10..12];
    assert b[..16][12..16] == b[12..16] && b[..16][4..8] == [b[4], b[5], b[6], b[7]];
    if b[..16] == header {
      assert header[4..8][0] == b[4] && header[4..8][1] == b[5] && header[4..8][2] == b[6] && header[4..8][3] == b[7];
    }
  }

  lemma HeaderParts(s: seq<byte>)
    requires |s| == 16
    ensures s == s[..4] + s[4..8] + s[8..10] + s[10..12] + s[12..16]
  {
  }

  /** A sealed frame with an extension, by its parts. */
  lemma SealedIsLaid(p: Protocol, b: seq<byte>, kind: byte, h: nat, widths: seq<nat>, values: seq<nat>,
                     payload: seq<byte>)
    requires |p.magic| == 4 && p.minor == 0 && |values| == |widths|
    requires 16 + Total(widths) <= h < 0x1_0000 && |b| == h + |payload|
    ensures Headed(b, p.magic, p.major, kind, h, payload) && Row(b, 16, widths, values) <==>
              b == Seal(p, Envelope(kind, h, |payload|, Print(widths, values) + b[16 + Total(widths)..h] + payload))
  {
    hide HeaderBytes, Print, Digits, Row, Total;
    var min := 16 + Total(widths);
    var header, fields := HeaderBytes(p, kind, h, |payload|), Print(widths, values);
    HeaderIsHeaded(p, b, kind, h, |payload|);
    RowIsPrint(b, 16, widths, values);
    WholeByParts(b, min, h, header, fields, payload);
  }

  lemma WholeByParts(b: seq<byte>, min: nat, h: nat, header: seq<byte>, fields: seq<byte>, payload: seq<byte>)
    requires |header| == 16 && |fields| == min - 16 && 16 <= min <= h && |b| == h + |payload|
    ensures b == header + (fields + b[min..h] + payload) <==>
              b[..16] == header && b[16..min] == fields && b[h..] == payload
  {
    var whole := header + (fields + b[min..h] + payload);
    assert whole[..16] == header && whole[16..min] == fields && whole[h..] == payload;
    assert b == b[..16] + (b[16..min] + b[min..h] + b[h..]);
  }

  // ---- Relay frames ----

  /** The thirty-two bit two's complement of a signed number. */
  function TwosComplement(n: i32): nat { if n < 0 then n + 0x1_0000_0000 else n }

  /** The relay accepts no zero ids, control messages up to 16384 bytes and payloads up to 1392. */
  predicate RelaySendable(f: RelayFrame.Frame) {
    match f
    case ClientControl(payload) => |payload| <= 16384
    case ServerControl(payload) => |payload| <= 16384
    case Data(connectionId, frameId, _, _, stream, sequence, _, _, payload) =>
      connectionId != 0 && frameId != 0 && stream != 0 && sequence != 0 && |payload| <= 1392
    case Probe(connectionId, probeId, _, _, _) => connectionId != 0 && probeId != 0
  }

  /** The frame laid out in `b` with a header of `h` bytes, every number in its place. */
  ghost predicate RelayLaid(b: seq<byte>, f: RelayFrame.Frame, h: nat) {
    var magic: seq<byte> := [0x54, 0x42, 0x52, 0x33];
    match f
    case ClientControl(payload) => Headed(b, magic, 3, 1, h, payload)
    case ServerControl(payload) => Headed(b, magic, 3, 2, h, payload)
    case Data(connectionId, frameId, fromSteam, toSteam, stream, sequence, channel, sendType, payload) =>
      && h >= 80 && Headed(b, magic, 3, 3, h, payload)
      && Digits(b, 16, 8, connectionId) && Digits(b, 24, 8, frameId)
      && Digits(b, 32, 8, fromSteam) && Digits(b, 40, 8, toSteam)
      && Digits(b, 48, 16, stream) && Digits(b, 64, 8, sequence)
      && Digits(b, 72, 4, TwosComplement(channel)) && Digits(b, 76, 4, TwosComplement(sendType))
    case Probe(connectionId, probeId, fromSteam, toSteam, phase) =>
      && h >= 56 && Headed(b, magic, 3, 4, h, [])
      && Digits(b, 16, 8, connectionId) && Digits(b, 24, 8, probeId)
      && Digits(b, 32, 8, fromSteam) && Digits(b, 40, 8, toSteam)
      && Digits(b, 48, 1, if phase.Request? then 1 else 2) && Digits(b, 49, 7, 0)
  }

  lemma Row0(b: seq<byte>, at: nat)
    ensures Row(b, at, [], [])
  {
  }

  lemma Row1(b: seq<byte>, at: nat, w: nat, v: nat, widths: seq<nat>, values: seq<nat>)
    requires |values| == |widths|
    ensures Row(b, at, [w] + widths, [v] + values) <==> Digits(b, at, w, v) && Row(b, at + w, widths, values)
  {
    hide Digits;
    assert ([w] + widths)[1..] == widths && ([v] + values)[1..] == values;
  }

  lemma Row2(b: seq<byte>, at: nat, w0: nat, v0: nat, w1: nat, v1: nat)
    ensures Row(b, at, [w0, w1], [v0, v1]) <==> Digits(b, at, w0, v0) && Digits(b, at + w0, w1, v1)
  {
    Row0(b, at + w0 + w1);
    Row1(b, at + w0, w1, v1, [], []);
    Row1(b, at, w0, v0, [w1], [v1]);
    hide Row, Digits;
    assert [w0] + [w1] == [w0, w1] && [v0] + [v1] == [v0, v1] && [w1] + [] == [w1] && [v1] + [] == [v1];
  }

  lemma {:induction false} RowOfBoth(b: seq<byte>, at: nat, w: seq<nat>, v: seq<nat>,
                                     widths: seq<nat>, values: seq<nat>)
    requires |v| == |w| && |values| == |widths|
    ensures Row(b, at, w + widths, v + values) <==> Row(b, at, w, v) && Row(b, at + Total(w), widths, values)
    decreases |w|
  {
    if w == [] {
      assert w + widths == widths && v + values == values;
    } else {
      RowOfBoth(b, at + w[0], w[1..], v[1..], widths, values);
      assert w + widths == [w[0]] + (w[1..] + widths) && v + values == [v[0]] + (v[1..] + values);
      Row1(b, at, w[0], v[0], w[1..] + widths, v[1..] + values);
      hide Digits;
    }
  }

  lemma TotalOfTwo(w0: nat, w1: nat)
    ensures Total([w0, w1]) == w0 + w1
  {
    assert [w0, w1][1..] == [w1] && Total([w1][1..]) == 0;
    assert Total([w1]) == w1;
  }

  lemma Row4(b: seq<byte>, at: nat, w: seq<nat>, v: seq<nat>)
    requires |w| == 4 && |v| == 4
    ensures Row(b, at, w, v) <==>
              && Digits(b, at, w[0], v[0]) && Digits(b, at + w[0], w[1], v[1])
              && Digits(b, at + w[0] + w[1], w[2], v[2]) && Digits(b, at + w[0] + w[1] + w[2], w[3], v[3])
  {
    Row2(b, at, w[0], v[0], w[1], v[1]);
    Row2(b, at + w[0] + w[1], w[2], v[2], w[3], v[3]);
    RowOfBoth(b, at, [w[0], w[1]], [v[0], v[1]], [w[2], w[3]], [v[2], v[3]]);
    TotalOfTwo(w[0], w[1]);
    hide Row, Digits, Total;
    assert w == [w[0], w[1]] + [w[2], w[3]] && v == [v[0], v[1]] + [v[2], v[3]];
  }

  lemma TotalOfFour(w: seq<nat>)
    requires |w| == 4
    ensures Total(w) == w[0] + w[1] + w[2] + w[3]
  {
    TotalOfTwo(w[0], w[1]);
    TotalOfTwo(w[2], w[3]);
    TotalConcat([w[0], w[1]], [w[2], w[3]]);
    hide Total;
    assert w == [w[0], w[1]] + [w[2], w[3]];
  }

  /** The fields of a relay frame, place by place. */
  lemma RelayRow(b: seq<byte>, f: RelayFrame.Frame, h: nat, payload: seq<byte>)
    requires payload == RelayFrame.Payload(f) && |b| == h + |payload| && RelayFrame.HeaderLen(f) <= h < 0x1_0000
    ensures var p := RelayFrame.Relay();
            RelayLaid(b, f, h) <==>
            && Headed(b, p.magic, p.major, RelayFrame.Kind(f), h, payload)
            && Row(b, 16, RelayFrame.FieldWidths(RelayFrame.Kind(f)), RelayFrame.Fields(f))
  {
    hide Headed, Digits, Row, Total;
    match f {
      case ClientControl(_) => Row0(b, 16);
      case ServerControl(_) => Row0(b, 16);
      case Data(c, id, from, to, stream, sequence, channel, sendType, _) =>
        var v, v' := [c, id, from, to], [stream, sequence, TwosComplement(channel), TwosComplement(sendType)];
        Row4(b, 16, [8, 8, 8, 8], v);
        Row4(b, 48, [16, 8, 4, 4], v');
        TotalOfFour([8, 8, 8, 8]);
        RowOfBoth(b, 16, [8, 8, 8, 8], v, [16, 8, 4, 4], v');
        assert RelayFrame.Fields(f) == v + v';
      case Probe(c, id, from, to, phase) =>
        var v, v' := [c, id, from, to], [if phase.Request? then 1 else 2, 0];
        Row4(b, 16, [8, 8, 8, 8], v);
        Row2(b, 48, 1, v'[0], 7, 0);
        TotalOfFour([8, 8, 8, 8]);
        RowOfBoth(b, 16, [8, 8, 8, 8], v, [1, 7], v');
        assert RelayFrame.Fields(f) == v + v';
    }
  }

  lemma RelayLaidIsWireForm(b: seq<byte>, f: RelayFrame.Frame, h: nat)
    ensures RelayLaid(b, f, h) <==>
              var min := RelayFrame.HeaderLen(f);
              min <= h < 0x1_0000 && |b| == h + |RelayFrame.Payload(f)| && b == RelayFrame.WireForm(f, b[min..h])
  {
    hide Digits, Row, Print, Total, RelayFrame.FieldWidths, RelayFrame.Fields;
    var min, payload := RelayFrame.HeaderLen(f), RelayFrame.Payload(f);
    var p, kind := RelayFrame.Relay(), RelayFrame.Kind(f);
    if min <= h < 0x1_0000 && |b| == h + |payload| {
      hide RelayLaid, Headed, Seal;
      RelayRow(b, f, h, payload);
      RelayFrame.HeaderHoldsFields(kind);
      SealedIsLaid(p, b, kind, h, RelayFrame.FieldWidths(kind), RelayFrame.Fields(f), payload);
    } else {
      hide RelayFrame.WireForm;
    }
  }

  lemma RelaySendableIsExact(f: RelayFrame.Frame)
    ensures RelayFrame.Encodable(f) <==> RelaySendable(f)
  {
  }

  /** The relay's decoder reads a byte string as a frame if and only if the frame may be sent and stands in the bytes,
      every number in its place, after a header of some length. */
  lemma RelayDecodesLayout(b: seq<byte>, f: RelayFrame.Frame)
    ensures RelayFrame.Decode(b) == Ok(f) <==> RelaySendable(f) && exists h: nat :: RelayLaid(b, f, h)
  {
    hide RelayFrame.Decode, RelayFrame.WireForm, RelayFrame.WhyNotEncoded, RelayLaid, RelaySendable;
    RelaySendableIsExact(f);
    RelayFrame.DecodeIsTheGrammar(b, f);
    if RelayFrame.Decode(b) == Ok(f) {
      var min := RelayFrame.HeaderLen(f);
      var extension: seq<byte> :| min + |extension| < U16_LIMIT && b == RelayFrame.WireForm(f, extension);
      RelayFrame.LengthOfWireForm(f, extension);
      RelayLaidIsWireForm(b, f, min + |extension|);
    }
    if h: nat :| RelaySendable(f) && RelayLaid(b, f, h) {
      RelayLaidIsWireForm(b, f, h);
      RelayFrame.DecodeOfWireForm(f, b[RelayFrame.HeaderLen(f)..h]);
    }
  }

  /** The relay's encoder writes a frame if and only if it may be sent, with the shortest header of its kind. */
  lemma RelayEncodesLayout(f: RelayFrame.Frame)
    ensures RelayFrame.Encode(f).Ok? <==> RelaySendable(f)
    ensures RelayFrame.Encode(f).Ok? ==>
              RelayLaid(RelayFrame.Encode(f).value, f, if f.Data? then 80 else if f.Probe? then 56 else 16)
  {
    hide RelayFrame.WireForm, RelayLaid, RelaySendable;
    RelaySendableIsExact(f);
    if RelayFrame.Encode(f).Ok? {
      var b, min := RelayFrame.Encode(f).value, RelayFrame.HeaderLen(f);
      RelayFrame.LengthOfWireForm(f, []);
      assert b[min..min] == [];
      RelayLaidIsWireForm(b, f, min);
    }
  }

  // ---- Direct frames ----

  /** No zero id, no frame to oneself, payloads up to 1352 bytes. */
  predicate DirectSendable(f: DirectFrame.Frame) {
    && f.path.id != 0 && f.path.token != 0 && f.path.fromSteam != 0 && f.path.toSteam != 0 && f.path.fromInstance != 0
    && f.path.fromSteam != f.path.toSteam
    && match f
       case Check(_, transaction, _) => transaction != 0
       case Heartbeat(_, heartbeatId, _) => heartbeatId != 0
       case Data(_, frameId, stream, sequence, _, _, payload) =>
         frameId != 0 && stream != 0 && sequence != 0 && |payload| <= 1352
  }

  ghost predicate PathLaid(b: seq<byte>, p: DirectFrame.Path) {
    && Digits(b, 16, 16, p.id) && Digits(b, 32, 16, p.token) && Digits(b, 48, 8, p.fromSteam)
    && Digits(b, 56, 16, p.fromInstance) && Digits(b, 72, 8, p.toSteam)
  }

  function PhaseByte(phase: DirectFrame.Phase): nat { if phase.Request? then 1 else 2 }

  /** The frame laid out in `b` with a header of `h` bytes, every number in its place. */
  ghost predicate DirectLaid(b: seq<byte>, f: DirectFrame.Frame, h: nat) {
    var magic: seq<byte> := [0x54, 0x42, 0x44, 0x32];
    && PathLaid(b, f.path)
    && match f
       case Check(_, transaction, phase) =>
         && h >= 104 && Headed(b, magic, 2, 1, h, [])
         && Digits(b, 80, 16, transaction) && Digits(b, 96, 1, PhaseByte(phase)) && Digits(b, 97, 7, 0)
       case Heartbeat(_, heartbeatId, phase) =>
         && h >= 96 && Headed(b, magic, 2, 2, h, [])
         && Digits(b, 80, 8, heartbeatId) && Digits(b, 88, 1, PhaseByte(phase)) && Digits(b, 89, 7, 0)
       case Data(_, frameId, stream, sequence, channel, sendType, payload) =>
         && h >= 120 && Headed(b, magic, 2, 3, h, payload)
         && Digits(b, 80, 8, frameId) && Digits(b, 88, 16, stream) && Digits(b, 104, 8, sequence)
         && Digits(b, 112, 4, TwosComplement(channel)) && Digits(b, 116, 4, TwosComplement(sendType))
  }

  lemma PathRow(b: seq<byte>, p: DirectFrame.Path)
    ensures Row(b, 16, [16, 16, 8, 16, 8], [p.id, p.token, p.fromSteam, p.fromInstance, p.toSteam]) <==> PathLaid(b, p)
    ensures Total([16, 16, 8, 16, 8]) == 64
  {
    hide Row, Digits, Total;
    Row4(b, 16, [16, 16, 8, 16], [p.id, p.token, p.fromSteam, p.fromInstance]);
    Row0(b, 80);
    Row1(b, 72, 8, p.toSteam, [], []);
    TotalOfFour([16, 16, 8, 16]);
    TotalOfOne(8);
    TotalConcat([16, 16, 8, 16], [8]);
    RowOfBoth(b, 16, [16, 16, 8, 16], [p.id, p.token, p.fromSteam, p.fromInstance], [8], [p.toSteam]);
    assert [8] + [] == [8] && [p.toSteam] + [] == [p.toSteam];
    assert [16, 16, 8, 16] + [8] == [16, 16, 8, 16, 8];
    assert [p.id, p.token, p.fromSteam, p.fromInstance] + [p.toSteam] ==
           [p.id, p.token, p.fromSteam, p.fromInstance, p.toSteam];
  }

  lemma TotalOfOne(w: nat)
    ensures Total([w]) == w
  {
    assert [w][1..] == [];
  }

  lemma Row3(b: seq<byte>, at: nat, w: seq<nat>, v: seq<nat>)
    requires |w| == 3 && |v| == 3
    ensures Row(b, at, w, v) <==>
              && Digits(b, at, w[0], v[0]) && Digits(b, at + w[0], w[1], v[1])
              && Digits(b, at + w[0] + w[1], w[2], v[2])
  {
    hide Row, Digits;
    Row1(b, at, w[0], v[0], [w[1], w[2]], [v[1], v[2]]);
    Row2(b, at + w[0], w[1], v[1], w[2], v[2]);
    assert w == [w[0]] + [w[1], w[2]] && v == [v[0]] + [v[1], v[2]];
  }

  lemma Row5(b: seq<byte>, at: nat, w: seq<nat>, v: seq<nat>)
    requires |w| == 5 && |v| == 5
    ensures Row(b, at, w, v) <==>
              && Digits(b, at, w[0], v[0]) && Digits(b, at + w[0], w[1], v[1])
              && Digits(b, at + w[0] + w[1], w[2], v[2]) && Digits(b, at + w[0] + w[1] + w[2], w[3], v[3])
              && Digits(b, at + w[0] + w[1] + w[2] + w[3], w[4], v[4])
  {
    hide Row, Digits;
    Row1(b, at, w[0], v[0], w[1..], v[1..]);
    Row4(b, at + w[0], w[1..], v[1..]);
    assert w == [w[0]] + w[1..] && v == [v[0]] + v[1..];
  }

  /** The fields after the path, place by place. */
  lemma DirectRow(b: seq<byte>, f: DirectFrame.Frame, h: nat, payload: seq<byte>)
    requires payload == DirectFrame.Payload(f) && |b| == h + |payload| && DirectFrame.HeaderLen(f) <= h < 0x1_0000
    ensures var p := DirectFrame.Direct();
            DirectLaid(b, f, h) <==>
            && Headed(b, p.magic, p.major, DirectFrame.Kind(f), h, payload)
            && Row(b, 16, DirectFrame.FieldWidths(DirectFrame.Kind(f)), DirectFrame.Fields(f))
  {
    hide Headed, Digits, Row, Total, PathLaid;
    var p := f.path;
    var path := [p.id, p.token, p.fromSteam, p.fromInstance, p.toSteam];
    PathRow(b, p);
    match f {
      case Check(_, transaction, phase) =>
        var v := [transaction, PhaseByte(phase), 0];
        Row3(b, 80, [16, 1, 7], v);
        RowOfBoth(b, 16, [16, 16, 8, 16, 8], path, [16, 1, 7], v);
        assert DirectFrame.Fields(f) == path + v;
      case Heartbeat(_, id, phase) =>
        var v := [id, PhaseByte(phase), 0];
        Row3(b, 80, [8, 1, 7], v);
        RowOfBoth(b, 16, [16, 16, 8, 16, 8], path, [8, 1, 7], v);
        assert DirectFrame.Fields(f) == path + v;
      case Data(_, id, stream, sequence, channel, sendType, _) =>
        var v := [id, stream, sequence, TwosComplement(channel), TwosComplement(sendType)];
        Row5(b, 80, [8, 16, 8, 4, 4], v);
        RowOfBoth(b, 16, [16, 16, 8, 16, 8], path, [8, 16, 8, 4, 4], v);
        assert DirectFrame.Fields(f) == path + v;
    }
  }

  lemma DirectLaidIsWireForm(b: seq<byte>, f: DirectFrame.Frame, h: nat)
    ensures DirectLaid(b, f, h) <==>
              var min := DirectFrame.HeaderLen(f);
              min <= h < 0x1_0000 && |b| == h + |DirectFrame.Payload(f)| && b == DirectFrame.WireForm(f, b[min..h])
  {
    hide Digits, Row, Print, Total, DirectFrame.FieldWidths, DirectFrame.Fields, PathLaid;
    var min, payload := DirectFrame.HeaderLen(f), DirectFrame.Payload(f);
    var p, kind := DirectFrame.Direct(), DirectFrame.Kind(f);
    if min <= h < 0x1_0000 && |b| == h + |payload| {
      hide DirectLaid, Headed, Seal;
      DirectRow(b, f, h, payload);
      DirectFrame.HeaderHoldsFields(kind);
      SealedIsLaid(p, b, kind, h, DirectFrame.FieldWidths(kind), DirectFrame.Fields(f), payload);
    } else {
      hide DirectFrame.WireForm;
    }
  }

  lemma DirectSendableIsExact(f: DirectFrame.Frame)
    ensures DirectFrame.Encodable(f) <==> DirectSendable(f)
  {
  }

  /** The same for the direct protocol. */
  lemma DirectDecodesLayout(b: seq<byte>, f: DirectFrame.Frame)
    ensures DirectFrame.Decode(b) == Ok(f) <==> DirectSendable(f) && exists h: nat :: DirectLaid(b, f, h)
  {
    hide DirectFrame.Decode, DirectFrame.WireForm, DirectFrame.WhyNotEncoded, DirectLaid, DirectSendable;
    DirectSendableIsExact(f);
    DirectFrame.DecodeIsTheGrammar(b, f);
    if DirectFrame.Decode(b) == Ok(f) {
      var min := DirectFrame.HeaderLen(f);
      var extension: seq<byte> :| min + |extension| < U16_LIMIT && b == DirectFrame.WireForm(f, extension);
      DirectFrame.LengthOfWireForm(f, extension);
      DirectLaidIsWireForm(b, f, min + |extension|);
    }
    if h: nat :| DirectSendable(f) && DirectLaid(b, f, h) {
      DirectLaidIsWireForm(b, f, h);
      DirectFrame.DecodeOfWireForm(f, b[DirectFrame.HeaderLen(f)..h]);
    }
  }

  lemma DirectEncodesLayout(f: DirectFrame.Frame)
    ensures DirectFrame.Encode(f).Ok? <==> DirectSendable(f)
    ensures DirectFrame.Encode(f).Ok? ==>
              DirectLaid(DirectFrame.Encode(f).value, f, if f.Check? then 104 else if f.Heartbeat? then 96 else 120)
  {
    hide DirectFrame.WireForm, DirectLaid, DirectSendable;
    DirectSendableIsExact(f);
    if DirectFrame.Encode(f).Ok? {
      var b, min := DirectFrame.Encode(f).value, DirectFrame.HeaderLen(f);
      DirectFrame.LengthOfWireForm(f, []);
      assert b[min..min] == [];
      DirectLaidIsWireForm(b, f, min);
    }
  }

  // ---- Refusals ----

  function Two(b: seq<byte>, at: nat): nat
    requires at + 2 <= |b|
  {
    b[at] as int * 256 + b[at + 1]
  }

  function Four(b: seq<byte>, at: nat): nat
    requires at + 4 <= |b|
  {
    Two(b, at) * 65536 + Two(b, at + 2)
  }

  /** All bytes of the range are zero. */
  ghost predicate Zero(b: seq<byte>, at: nat, width: nat)
    requires at + width <= |b|
  {
    forall j :: at <= j < at + width ==> b[j] == 0
  }

  lemma ValueOfTwo(s: seq<byte>)
    requires |s| == 2
    ensures Value(s) == s[0] as int * 256 + s[1]
  {
    assert s[..1] == [s[0]] && [s[0]][..0] == [];
    assert Value([s[0]]) == s[0] as int;
  }

  lemma ValueOfFour(s: seq<byte>)
    requires |s| == 4
    ensures Value(s) == (s[0] as int * 256 + s[1]) * 65536 + s[2] as int * 256 + s[3]
  {
    ValueOfTwo(s[..2]);
    assert s[..3][..2] == s[..2] && s[..3][2] == s[2];
    assert Value(s[..3]) == Value(s[..2]) * 256 + s[2];
  }

  lemma {:induction false} ValueIsZero(s: seq<byte>)
    ensures Value(s) == 0 <==> forall i :: 0 <= i < |s| ==> s[i] == 0
    decreases |s|
  {
    if s != [] {
      var front := s[..|s| - 1];
      ValueIsZero(front);
      assert forall i :: 0 <= i < |front| ==> front[i] == s[i];
    }
  }

  lemma SliceIsZero(b: seq<byte>, at: nat, width: nat)
    requires at + width <= |b|
    ensures Value(b[at..at + width]) == 0 <==> Zero(b, at, width)
  {
    var part := b[at..at + width];
    ValueIsZero(part);
    hide Value;
    assert forall i :: 0 <= i < width ==> part[i] == b[at + i];
    if Value(part) == 0 {
      forall j | at <= j < at + width ensures b[j] == 0 { assert b[j] == part[j - at]; }
    }
  }

  /** The first fault of a header, by its bytes; `minimum` and `longest` are those of the kind. */
  ghost function HeaderFault(b: seq<byte>, magic: seq<byte>, major: byte, kinds: set<byte>, minimum: nat, longest: nat)
    : Option<HeaderError>
  {
    if |b| < 16 then Some(TooShort)
    else if b[..4] != magic then Some(BadMagic)
    else if b[4] != major then Some(UnsupportedMajor(b[4]))
    else if b[5] != 0 then Some(UnsupportedMinor(b[5]))
    else if b[6] !in kinds then Some(UnknownKind(b[6]))
    else if b[7] != 0 then Some(UnsupportedFlags(b[7]))
    else if Two(b, 10) != 0 then Some(NonZeroReserved(Two(b, 10)))
    else if Two(b, 8) < minimum then Some(BadHeaderLength(Two(b, 8)))
    else if Four(b, 12) > longest then Some(PayloadTooLarge(Four(b, 12)))
    else if |b| < Two(b, 8) + Four(b, 12) then Some(TooShort)
    else if |b| > Two(b, 8) + Four(b, 12) then Some(TrailingBytes)
    else None
  }

  lemma OpenIsExact(p: Protocol, b: seq<byte>, kinds: set<byte>, minimum: nat, longest: nat)
    requires |p.magic| == 4 && p.minor == 0 && kinds == p.layouts.Keys
    requires |b| >= 16 && b[6] in kinds ==> p.layouts[b[6]] == Layout(minimum, longest)
    ensures var fault := HeaderFault(b, p.magic, p.major, kinds, minimum, longest);
            && (fault.Some? ==> Open(p, b) == Err(fault.value))
            && (fault.None? ==> |b| >= 16 && Open(p, b) == Ok(Envelope(b[6], Two(b, 8), Four(b, 12), b[16..])))
  {
    if |b| >= 16 {
      ValueOfTwo(b[8..10]);
      ValueOfTwo(b[10..12]);
      ValueOfFour(b[12..16]);
      assert b[12..16][0] == b[12] && b[12..16][1] == b[13] && b[12..16][2] == b[14] && b[12..16][3] == b[15];
      hide Value;
    }
  }

  /** The first fault of a relay frame, by its bytes. */
  ghost function RelayFault(b: seq<byte>): Option<RelayFrame.DecodeError> {
    var kind := if |b| >= 7 then b[6] else 0;
    var header := HeaderFault(b, [0x54, 0x42, 0x52, 0x33], 3, {1, 2, 3, 4},
                              if kind == 3 then 80 else if kind == 4 then 56 else 16,
                              if kind == 3 then 1392 else if kind == 4 then 0 else 16384);
    if header.Some? then Some(RelayFrame.BadHeader(header.value))
    else if kind == 3 then
      if Zero(b, 16, 8) then Some(RelayFrame.ZeroConnectionId)
      else if Zero(b, 24, 8) then Some(RelayFrame.ZeroFrameId)
      else if Zero(b, 48, 16) then Some(RelayFrame.ZeroDeliveryStream)
      else if Zero(b, 64, 8) then Some(RelayFrame.ZeroDeliverySequence)
      else None
    else if kind == 4 then
      if b[48] != 1 && b[48] != 2 then Some(RelayFrame.UnknownProbePhase(b[48]))
      else if Zero(b, 16, 8) then Some(RelayFrame.ZeroConnectionId)
      else if Zero(b, 24, 8) then Some(RelayFrame.ZeroProbeId)
      else if !Zero(b, 49, 7) then Some(RelayFrame.NonZeroProbeReserved)
      else None
    else None
  }

  /** The `i`-th field is the number in the bytes where it stands. */
  lemma {:induction false} ParsedAt(widths: seq<nat>, s: seq<byte>, i: nat)
    requires |s| >= Total(widths) && i < |widths|
    ensures Total(widths[..i]) + widths[i] <= |s|
    ensures Parse(widths, s)[i] == Value(s[Total(widths[..i])..Total(widths[..i]) + widths[i]])
    decreases |widths|
  {
    ParseFirst(widths, s);
    hide Value;
    if i == 0 {
      assert widths[..0] == [];
    } else {
      ParsedAt(widths[1..], s[widths[0]..], i - 1);
      assert widths[..i] == [widths[0]] + widths[1..][..i - 1];
      assert widths[..i][1..] == widths[1..][..i - 1];
      var at := Total(widths[1..][..i - 1]);
      SliceOfSlice(s, widths[0], at, at + widths[i]);
      hide Parse;
    }
  }

  lemma TotalOfPrefix(widths: seq<nat>, i: nat)
    requires i < |widths|
    ensures Total(widths[..i + 1]) == Total(widths[..i]) + widths[i]
  {
    TotalConcat(widths[..i], [widths[i]]);
    TotalOfOne(widths[i]);
    hide Total;
    assert widths[..i + 1] == widths[..i] + [widths[i]];
  }

  /** The `i`-th field of a frame, and where the next one stands. */
  lemma FieldAt(b: seq<byte>, widths: seq<nat>, i: nat, at: nat)
    requires |b| >= 16 + Total(widths) && i < |widths| && at == 16 + Total(widths[..i])
    ensures at + widths[i] <= |b| && Parse(widths, b[16..])[i] == Value(b[at..at + widths[i]])
    ensures Parse(widths, b[16..])[i] == 0 <==> Zero(b, at, widths[i])
    ensures at + widths[i] == 16 + Total(widths[..i + 1])
  {
    hide Value, Parse, Total, Zero;
    var from, width := Total(widths[..i]), widths[i];
    ParsedAt(widths, b[16..], i);
    TotalOfPrefix(widths, i);
    SliceIsZero(b, at, width);
    assert b[16..][from..from + width] == b[at..at + width];
  }

  lemma FirstAt(widths: seq<nat>)
    ensures Total(widths[..0]) == 0
  {
    assert widths[..0] == [];
  }

  lemma ValueOfOne(b: seq<byte>, at: nat)
    requires at < |b|
    ensures Value(b[at..at + 1]) == b[at] as int
  {
    assert b[at..at + 1] == [b[at]] && [b[at]][..0] == [];
  }

  /** Where the checked fields of a data frame stand. */
  lemma RelayDataAt(b: seq<byte>)
    requires |b| >= 80
    ensures var widths := RelayFrame.FieldWidths(3); Total(widths) == 64 && |widths| == 8
    ensures var v := Parse(RelayFrame.FieldWidths(3), b[16..]);
            && (v[0] == 0 <==> Zero(b, 16, 8)) && (v[1] == 0 <==> Zero(b, 24, 8))
            && (v[4] == 0 <==> Zero(b, 48, 16)) && (v[5] == 0 <==> Zero(b, 64, 8))
  {
    RelayFrame.HeaderHoldsFields(3);
    var widths := RelayFrame.FieldWidths(3);
    assert |widths| == 8 && widths[0] == 8 && widths[1] == 8 && widths[2] == 8 && widths[3] == 8;
    assert widths[4] == 16 && widths[5] == 8;
    hide RelayFrame.FieldWidths, Value, Parse, Total, Zero;
    FirstAt(widths);
    FieldAt(b, widths, 0, 16);
    FieldAt(b, widths, 1, 24);
    FieldAt(b, widths, 2, 32);
    FieldAt(b, widths, 3, 40);
    FieldAt(b, widths, 4, 48);
    FieldAt(b, widths, 5, 64);
  }

  /** Where the checked fields of a probe stand. */
  lemma RelayProbeAt(b: seq<byte>)
    requires |b| >= 56
    ensures var widths := RelayFrame.FieldWidths(4); Total(widths) == 40 && |widths| == 6
    ensures var v := Parse(RelayFrame.FieldWidths(4), b[16..]);
            && (v[0] == 0 <==> Zero(b, 16, 8)) && (v[1] == 0 <==> Zero(b, 24, 8))
            && v[4] == b[48] as int && (v[5] == 0 <==> Zero(b, 49, 7))
  {
    RelayFrame.HeaderHoldsFields(4);
    var widths := RelayFrame.FieldWidths(4);
    assert |widths| == 6 && widths[0] == 8 && widths[1] == 8 && widths[2] == 8 && widths[3] == 8;
    assert widths[4] == 1 && widths[5] == 7;
    hide RelayFrame.FieldWidths, Value, Parse, Total, Zero;
    FirstAt(widths);
    FieldAt(b, widths, 0, 16);
    FieldAt(b, widths, 1, 24);
    FieldAt(b, widths, 2, 32);
    FieldAt(b, widths, 3, 40);
    FieldAt(b, widths, 4, 48);
    FieldAt(b, widths, 5, 49);
    ValueOfOne(b, 48);
  }

  /** The relay's decoder answers the first fault there is in the bytes, and a frame if there is none. */
  lemma RelayRefusesExactly(b: seq<byte>)
    ensures RelayFault(b).Some? ==> RelayFrame.Decode(b) == Err(RelayFault(b).value)
    ensures RelayFault(b).None? ==> RelayFrame.Decode(b).Ok?
  {
    var kind := if |b| >= 7 then b[6] else 0;
    var p := RelayFrame.Relay();
    OpenIsExact(p, b, {1, 2, 3, 4}, if kind == 3 then 80 else if kind == 4 then 56 else 16,
                if kind == 3 then 1392 else if kind == 4 then 0 else 16384);
    hide Open, HeaderFault, Zero, Parse, RelayFrame.FieldWidths;
    if Open(p, b).Ok? {
      if |b| >= 80 { RelayDataAt(b); }
      if |b| >= 56 { RelayProbeAt(b); }
    }
  }

  /** The first fault of a path, by its bytes. */
  ghost function PathFault(b: seq<byte>): Option<DirectFrame.DecodeError>
    requires |b| >= 80
  {
    if Zero(b, 16, 16) then Some(DirectFrame.ZeroPathId)
    else if Zero(b, 32, 16) then Some(DirectFrame.ZeroPathToken)
    else if Zero(b, 48, 8) then Some(DirectFrame.ZeroSteamId)
    else if Zero(b, 56, 16) then Some(DirectFrame.ZeroInstanceId)
    else if Zero(b, 72, 8) then Some(DirectFrame.ZeroSteamId)
    else if b[48..56] == b[72..80] then Some(DirectFrame.SelfTarget)
    else None
  }

  /** The first fault of a direct frame, by its bytes. */
  ghost function DirectFault(b: seq<byte>): Option<DirectFrame.DecodeError> {
    var kind := if |b| >= 7 then b[6] else 0;
    var header := HeaderFault(b, [0x54, 0x42, 0x44, 0x32], 2, {1, 2, 3},
                              if kind == 1 then 104 else if kind == 2 then 96 else 120, if kind == 3 then 1352 else 0);
    if header.Some? then Some(DirectFrame.BadHeader(header.value))
    else if PathFault(b).Some? then PathFault(b)
    else if kind == 1 then
      if Zero(b, 80, 16) then Some(DirectFrame.ZeroTransactionId)
      else if b[96] != 1 && b[96] != 2 then Some(DirectFrame.UnknownCheckPhase(b[96]))
      else if !Zero(b, 97, 7) then Some(DirectFrame.NonZeroFrameReserved)
      else None
    else if kind == 2 then
      if Zero(b, 80, 8) then Some(DirectFrame.ZeroHeartbeatId)
      else if b[88] != 1 && b[88] != 2 then Some(DirectFrame.UnknownHeartbeatPhase(b[88]))
      else if !Zero(b, 89, 7) then Some(DirectFrame.NonZeroFrameReserved)
      else None
    else
      if Zero(b, 80, 8) then Some(DirectFrame.ZeroFrameId)
      else if Zero(b, 88, 16) then Some(DirectFrame.ZeroDeliveryStream)
      else if Zero(b, 104, 8) then Some(DirectFrame.ZeroDeliverySequence)
      else None
  }

  /** Widths that begin with those of a path. */
  predicate PathFirst(widths: seq<nat>) {
    |widths| >= 8 && widths[0] == 16 && widths[1] == 16 && widths[2] == 8 && widths[3] == 16 && widths[4] == 8
  }

  lemma DirectWidths(kind: byte)
    requires kind in DirectFrame.Direct().layouts
    ensures var widths := DirectFrame.FieldWidths(kind);
            && PathFirst(widths) && 16 + Total(widths) == DirectFrame.Direct().layouts[kind].minimum
            && widths[5] == (if kind == 1 then 16 else 8) && widths[6] == (if kind == 3 then 16 else 1)
            && widths[7] == (if kind == 3 then 8 else 7)
  {
    DirectFrame.HeaderHoldsFields(kind);
    hide Total;
  }

  /** Where the parts of the path stand. */
  lemma PathAt(b: seq<byte>, widths: seq<nat>)
    requires PathFirst(widths) && |b| >= 80 && |b| >= 16 + Total(widths)
    ensures var v := Parse(widths, b[16..]);
            && (v[0] == 0 <==> Zero(b, 16, 16)) && (v[1] == 0 <==> Zero(b, 32, 16))
            && (v[2] == 0 <==> Zero(b, 48, 8)) && v[2] == Value(b[48..56])
            && (v[3] == 0 <==> Zero(b, 56, 16))
            && (v[4] == 0 <==> Zero(b, 72, 8)) && v[4] == Value(b[72..80])
    ensures Total(widths[..5]) == 64
  {
    hide Value, Parse, Total, Zero;
    FirstAt(widths);
    FieldAt(b, widths, 0, 16);
    FieldAt(b, widths, 1, 32);
    FieldAt(b, widths, 2, 48);
    FieldAt(b, widths, 3, 56);
    FieldAt(b, widths, 4, 72);
  }

  lemma PathRefused(b: seq<byte>, kind: byte)
    requires kind in DirectFrame.Direct().layouts && |b| >= DirectFrame.Direct().layouts[kind].minimum
    ensures |DirectFrame.FieldWidths(kind)| >= 8
    ensures |b| >= 16 + Total(DirectFrame.FieldWidths(kind))
    ensures DirectFrame.PathError(Parse(DirectFrame.FieldWidths(kind), b[16..])) == PathFault(b)
  {
    hide DirectFrame.FieldWidths, Value, Parse, Total, Zero;
    DirectWidths(kind);
    PathAt(b, DirectFrame.FieldWidths(kind));
    BigOfValue(b[48..56]);
    BigOfValue(b[72..80]);
  }

  /** Where the fields after the path stand. */
  lemma OwnAt(b: seq<byte>, kind: byte)
    requires kind in DirectFrame.Direct().layouts && |b| >= DirectFrame.Direct().layouts[kind].minimum
    ensures |DirectFrame.FieldWidths(kind)| >= 8
    ensures |b| >= 16 + Total(DirectFrame.FieldWidths(kind))
    ensures var v := Parse(DirectFrame.FieldWidths(kind), b[16..]);
            && (kind == 1 ==>
                  (v[5] == 0 <==> Zero(b, 80, 16)) && v[6] == b[96] as int && (v[7] == 0 <==> Zero(b, 97, 7)))
            && (kind == 2 ==>
                  (v[5] == 0 <==> Zero(b, 80, 8)) && v[6] == b[88] as int && (v[7] == 0 <==> Zero(b, 89, 7)))
            && (kind == 3 ==>
                  && (v[5] == 0 <==> Zero(b, 80, 8)) && (v[6] == 0 <==> Zero(b, 88, 16))
                  && (v[7] == 0 <==> Zero(b, 104, 8)))
  {
    hide DirectFrame.FieldWidths, Value, Parse, Total, Zero;
    DirectWidths(kind);
    var widths := DirectFrame.FieldWidths(kind);
    PathAt(b, widths);
    var at := 80 + widths[5];
    FieldAt(b, widths, 5, 80);
    FieldAt(b, widths, 6, at);
    FieldAt(b, widths, 7, at + widths[6]);
    ValueOfOne(b, at);
  }

  /** The same for the direct protocol's decoder. */
  lemma DirectRefusesExactly(b: seq<byte>)
    ensures DirectFault(b).Some? ==> DirectFrame.Decode(b) == Err(DirectFault(b).value)
    ensures DirectFault(b).None? ==> DirectFrame.Decode(b).Ok?
  {
    var kind := if |b| >= 7 then b[6] else 0;
    var p := DirectFrame.Direct();
    OpenIsExact(p, b, {1, 2, 3}, if kind == 1 then 104 else if kind == 2 then 96 else 120,
                if kind == 3 then 1352 else 0);
    hide Open, HeaderFault, PathFault, Zero, Parse, DirectFrame.FieldWidths, DirectFrame.PathError;
    if Open(p, b).Ok? {
      PathRefused(b, kind);
      OwnAt(b, kind);
    }
  }

  /** What a frame lacks that may not be sent, the first in the order of its fields and the payload last. */
  lemma RelayEncodeRefusesExactly(f: RelayFrame.Frame)
    requires RelayFrame.Encode(f).Err?
    ensures var error := RelayFrame.Encode(f).error;
            && (error == RelayFrame.NoConnectionId <==> (f.Data? || f.Probe?) && f.connectionId == 0)
            && (error == RelayFrame.NoProbeId <==> f.Probe? && f.connectionId != 0)
            && (error == RelayFrame.NoFrameId <==> f.Data? && f.connectionId != 0 && f.frameId == 0)
            && (error == RelayFrame.NoDeliveryStream <==>
                  f.Data? && f.connectionId != 0 && f.frameId != 0 && f.deliveryStream == 0)
            && (error == RelayFrame.NoDeliverySequence <==>
                  f.Data? && f.connectionId != 0 && f.frameId != 0 && f.deliveryStream != 0 && f.deliverySequence == 0)
            && (error.TooLarge? ==> !f.Probe? && error.length == |f.payload|)
  {
  }

  lemma DirectEncodeRefusesExactly(f: DirectFrame.Frame)
    requires DirectFrame.Encode(f).Err?
    ensures var (error, p) := (DirectFrame.Encode(f).error, f.path);
            && (error == DirectFrame.NoPathId <==> p.id == 0)
            && (error == DirectFrame.NoPathToken <==> p.id != 0 && p.token == 0)
            && (error == DirectFrame.NoSteamId <==> p.id != 0 && p.token != 0 && (p.fromSteam == 0 || p.toSteam == 0))
            && (error == DirectFrame.NoInstanceId <==>
                  p.id != 0 && p.token != 0 && p.fromSteam != 0 && p.toSteam != 0 && p.fromInstance == 0)
            && (error == DirectFrame.SameSteamId <==>
                  && p.id != 0 && p.token != 0 && p.fromSteam != 0 && p.fromInstance != 0
                  && p.fromSteam == p.toSteam)
    ensures var error := DirectFrame.Encode(f).error;
            DirectSendable(DirectFrame.Check(f.path, 1, DirectFrame.Request)) ==>
              && (error == DirectFrame.NoTransactionId <==> f.Check?)
              && (error == DirectFrame.NoHeartbeatId <==> f.Heartbeat?)
              && (error == DirectFrame.NoFrameId <==> f.Data? && f.frameId == 0)
              && (error == DirectFrame.NoDeliveryStream <==> f.Data? && f.frameId != 0 && f.deliveryStream == 0)
              && (error == DirectFrame.NoDeliverySequence <==>
                    f.Data? && f.frameId != 0 && f.deliveryStream != 0 && f.deliverySequence == 0)
              && (error.TooLarge? ==> f.Data? && error.length == |f.payload|)
  {
  }
}
