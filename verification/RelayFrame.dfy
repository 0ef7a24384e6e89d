/** The relay protocol's frames: the encoder, the decoder, and the wire grammar that ties them. */
module RelayFrame {
  import opened Prelude
  import opened Wire

  const MAX_CONTROL_PAYLOAD: nat := 16 * 1024
  const DATA_FRAME_HEADER_LEN: nat := 80
  const PROBE_FRAME_HEADER_LEN: nat := 56
  const MAX_FRAME_LEN: nat := 1472
  const MAX_DATA_PAYLOAD: nat := MAX_FRAME_LEN - DATA_FRAME_HEADER_LEN

  const CLIENT_CONTROL: byte := 1
  const SERVER_CONTROL: byte := 2
  const DATA: byte := 3
  const PROBE: byte := 4

  /** Magic "TBR3", version 3.0. */
  function Relay(): (p: Protocol)
    ensures Usable(p)
  {
    Protocol([0x54, 0x42, 0x52, 0x33], 3, 0, map[
      CLIENT_CONTROL := Layout(COMMON_HEADER_LEN, MAX_CONTROL_PAYLOAD),
      SERVER_CONTROL := Layout(COMMON_HEADER_LEN, MAX_CONTROL_PAYLOAD),
      DATA := Layout(DATA_FRAME_HEADER_LEN, MAX_DATA_PAYLOAD),
      PROBE := Layout(PROBE_FRAME_HEADER_LEN, 0)])
  }

  datatype Phase = Request | Echo

  datatype Frame =
    | ClientControl(payload: seq<byte>)
    | ServerControl(payload: seq<byte>)
    | Data(connectionId: u64, frameId: u64, fromSteam: u64, toSteam: u64,
           deliveryStream: u128, deliverySequence: u64, channel: i32, sendType: i32, payload: seq<byte>)
    | Probe(connectionId: u64, probeId: u64, fromSteam: u64, toSteam: u64, phase: Phase)

  datatype EncodeError =
    TooLarge(length: nat) | NoConnectionId | NoFrameId | NoDeliveryStream | NoDeliverySequence | NoProbeId

  datatype DecodeError =
    | BadHeader(header: HeaderError)
    | ZeroConnectionId | ZeroFrameId | ZeroDeliveryStream | ZeroDeliverySequence | ZeroProbeId
    | UnknownProbePhase(code: nat) | NonZeroProbeReserved

  function Kind(f: Frame): byte {
    match f
    case ClientControl(_) => CLIENT_CONTROL
    case ServerControl(_) => SERVER_CONTROL
    case Data(_, _, _, _, _, _, _, _, _) => DATA
    case Probe(_, _, _, _, _) => PROBE
  }

  function FieldWidths(kind: byte): seq<nat> {
    if kind == DATA then AddressWidths() + [16, 8, 4, 4]
    else if kind == PROBE then AddressWidths() + [1, 7]
    else []
  }

  /** Connection id, frame or probe id, sender and target. */
  function AddressWidths(): seq<nat> { [8, 8, 8, 8] }

  function Fields(f: Frame): (values: seq<nat>)
    ensures |values| == |FieldWidths(Kind(f))|
  {
    match f
    case ClientControl(_) => []
    case ServerControl(_) => []
    case Data(c, id, from, to, stream, sequence, channel, sendType, _) =>
      [c, id, from, to, stream, sequence, FromSigned(channel), FromSigned(sendType)]
    case Probe(c, id, from, to, phase) => [c, id, from, to, if phase.Request? then 1 else 2, 0]
  }

  function Payload(f: Frame): seq<byte> { if f.Probe? then [] else f.payload }

  function WhyNotEncoded(f: Frame): Option<EncodeError> {
    match f
    case ClientControl(payload) => if |payload| > MAX_CONTROL_PAYLOAD then Some(TooLarge(|payload|)) else None
    case ServerControl(payload) => if |payload| > MAX_CONTROL_PAYLOAD then Some(TooLarge(|payload|)) else None
    case Data(c, id, _, _, stream, sequence, _, _, payload) =>
      if c == 0 then Some(NoConnectionId)
      else if id == 0 then Some(NoFrameId)
      else if stream == 0 then Some(NoDeliveryStream)
      else if sequence == 0 then Some(NoDeliverySequence)
      else if |payload| > MAX_DATA_PAYLOAD then Some(TooLarge(|payload|))
      else None
    case Probe(c, id, _, _, _) =>
      if c == 0 then Some(NoConnectionId) else if id == 0 then Some(NoProbeId) else None
  }

  predicate Encodable(f: Frame) { WhyNotEncoded(f).None? }

  function HeaderLen(f: Frame): nat { Relay().layouts[Kind(f)].minimum }

  /** The grammar: the frame's bytes with `extension` appended to its header. */
  function WireForm(f: Frame, extension: seq<byte>): seq<byte> {
    Seal(Relay(), Envelope(Kind(f), HeaderLen(f) + |extension|, |Payload(f)|,
                           Print(FieldWidths(Kind(f)), Fields(f)) + extension + Payload(f)))
  }

  function Encode(f: Frame): Result<seq<byte>, EncodeError> {
    match WhyNotEncoded(f)
    case Some(error) => Err(error)
    case None => Ok(WireForm(f, []))
  }

  /** The frame with these field values, or the first check they fail. */
  function Build(kind: byte, values: seq<nat>, payload: seq<byte>): Result<Frame, DecodeError>
    requires kind in Relay().layouts && Fit(FieldWidths(kind), values)
  {
    Widths();
    if kind == CLIENT_CONTROL then Ok(ClientControl(payload))
    else if kind == SERVER_CONTROL then Ok(ServerControl(payload))
    else if kind == DATA then
      assert values[6] < Power256(FieldWidths(DATA)[6]) && values[7] < Power256(FieldWidths(DATA)[7]);
      if values[0] == 0 then Err(ZeroConnectionId)
      else if values[1] == 0 then Err(ZeroFrameId)
      else if values[4] == 0 then Err(ZeroDeliveryStream)
      else if values[5] == 0 then Err(ZeroDeliverySequence)
      else Ok(Data(values[0], values[1], values[2], values[3], values[4], values[5],
                   ToSigned(values[6]), ToSigned(values[7]), payload))
    else
      if values[4] != 1 && values[4] != 2 then Err(UnknownProbePhase(values[4]))
      else if values[0] == 0 then Err(ZeroConnectionId)
      else if values[1] == 0 then Err(ZeroProbeId)
      else if values[5] != 0 then Err(NonZeroProbeReserved)
      else Ok(Probe(values[0], values[1], values[2], values[3], if values[4] == 1 then Request else Echo))
  }

  lemma HeaderHoldsFields(kind: byte)
    requires kind in Relay().layouts
    ensures Total(FieldWidths(kind)) == Relay().layouts[kind].minimum - COMMON_HEADER_LEN
  {
    assert [8, 8, 8, 8][1..] == [8, 8, 8] && [8, 8, 8][1..] == [8, 8] && Total([8, 8]) == 16;
    assert [16, 8, 4, 4][1..] == [8, 4, 4] && [8, 4, 4][1..] == [4, 4] && Total([4, 4]) == 8;
    assert Total([1, 7]) == 8;
    TotalConcat(AddressWidths(), [16, 8, 4, 4]);
    TotalConcat(AddressWidths(), [1, 7]);
  }

  function Decode(b: seq<byte>): Result<Frame, DecodeError> {
    match Open(Relay(), b)
    case Err(error) => Err(BadHeader(error))
    case Ok(e) =>
      SealOfOpen(Relay(), b);
      HeaderHoldsFields(e.kind);
      PrintOfParse(FieldWidths(e.kind), e.body);
      Build(e.kind, Parse(FieldWidths(e.kind), e.body), e.body[e.headerLen - COMMON_HEADER_LEN..])
  }

  lemma FieldsFit(f: Frame)
    ensures Fit(FieldWidths(Kind(f)), Fields(f))
  {
    Widths();
  }

  lemma BuildOfFields(f: Frame)
    requires Encodable(f)
    ensures Fit(FieldWidths(Kind(f)), Fields(f)) && Build(Kind(f), Fields(f), Payload(f)) == Ok(f)
    ensures |Payload(f)| <= Relay().layouts[Kind(f)].maxPayload
  {
    FieldsFit(f);
  }

  lemma FieldsOfBuild(kind: byte, values: seq<nat>, payload: seq<byte>)
    requires kind in Relay().layouts && Fit(FieldWidths(kind), values) && Build(kind, values, payload).Ok?
    requires |payload| <= Relay().layouts[kind].maxPayload
    ensures var f := Build(kind, values, payload).value;
            Encodable(f) && Kind(f) == kind && Fields(f) == values && Payload(f) == payload
  {
  }

  /** Header extension is transparent, and with no extension decoding inverts encoding. */
  lemma DecodeOfWireForm(f: Frame, extension: seq<byte>)
    requires Encodable(f) && HeaderLen(f) + |extension| < U16_LIMIT
    ensures Decode(WireForm(f, extension)) == Ok(f)
  {
    hide Build, Fields, FieldWidths, Open, Seal, WhyNotEncoded, Print, Parse, Total;
    var fields := Print(FieldWidths(Kind(f)), Fields(f));
    var e := Envelope(Kind(f), HeaderLen(f) + |extension|, |Payload(f)|, fields + extension + Payload(f));
    HeaderHoldsFields(Kind(f));
    BuildOfFields(f);
    OpenOfSeal(Relay(), e);
    assert e.body == fields + (extension + Payload(f));
    ParseOfPrint(FieldWidths(Kind(f)), Fields(f), extension + Payload(f));
    assert e.body[e.headerLen - COMMON_HEADER_LEN..] == Payload(f);
  }

  /** The bytes of an accepted frame's header beyond the fields this version knows. */
  function ExtensionOf(b: seq<byte>): (extension: seq<byte>)
    requires Open(Relay(), b).Ok?
    ensures var e := Open(Relay(), b).value; |extension| == e.headerLen - Relay().layouts[e.kind].minimum
  {
    SealOfOpen(Relay(), b);
    var e := Open(Relay(), b).value;
    b[Relay().layouts[e.kind].minimum..e.headerLen]
  }

  /** Every accepted byte string is the wire form of the frame it decodes to. */
  lemma WireFormOfDecode(b: seq<byte>)
    requires Decode(b).Ok?
    ensures Encodable(Decode(b).value) && WireForm(Decode(b).value, ExtensionOf(b)) == b
    ensures Kind(Decode(b).value) == Open(Relay(), b).value.kind
    ensures HeaderLen(Decode(b).value) + |ExtensionOf(b)| < U16_LIMIT
  {
    hide Build, Fields, FieldWidths, Open, WhyNotEncoded, HeaderBytes, Print, Parse, Total;
    var e := Open(Relay(), b).value;
    SealOfOpen(Relay(), b);
    HeaderHoldsFields(e.kind);
    PrintOfParse(FieldWidths(e.kind), e.body);
    var payload := e.body[e.headerLen - COMMON_HEADER_LEN..];
    FieldsOfBuild(e.kind, Parse(FieldWidths(e.kind), e.body), payload);
    var f := Decode(b).value;
    assert ExtensionOf(b) == e.body[Total(FieldWidths(e.kind))..e.headerLen - COMMON_HEADER_LEN];
    assert e.body == e.body[..Total(FieldWidths(e.kind))] + ExtensionOf(b) + payload;
  }

  lemma LengthOfWireForm(f: Frame, extension: seq<byte>)
    ensures |WireForm(f, extension)| == HeaderLen(f) + |extension| + |Payload(f)|
    ensures WireForm(f, extension)[HeaderLen(f)..HeaderLen(f) + |extension|] == extension
  {
    hide FieldWidths, Fields, Print, HeaderBytes, Total;
    HeaderHoldsFields(Kind(f));
    var header := HeaderBytes(Relay(), Kind(f), HeaderLen(f) + |extension|, |Payload(f)|);
    var fields := Print(FieldWidths(Kind(f)), Fields(f));
    ThirdPart(header, fields, extension, Payload(f), HeaderLen(f));
  }

  /** How long an accepted data or probe frame can be, and that its ids are not zero. */
  lemma LengthOfDecoded(b: seq<byte>)
    requires Decode(b).Ok?
    ensures var f := Decode(b).value;
            && (f.Data? ==> f.frameId != 0 && DATA_FRAME_HEADER_LEN <= |b| <= 0xFFFF + MAX_DATA_PAYLOAD)
            && (f.Probe? ==> f.probeId != 0 && PROBE_FRAME_HEADER_LEN <= |b| <= 0xFFFF)
  {
    WireFormOfDecode(b);
    LengthOfWireForm(Decode(b).value, ExtensionOf(b));
    hide Decode, ExtensionOf, WireForm;
  }

  /** Re-encoding returns the same bytes whenever the header has its minimum length. */
  lemma MinimalHeaderReencodes(b: seq<byte>)
    requires Decode(b).Ok?
    ensures Encode(Decode(b).value) == Ok(b) <==> Open(Relay(), b).value.headerLen == HeaderLen(Decode(b).value)
  {
    hide Build, WhyNotEncoded, Open, Fields, FieldWidths;
    SealOfOpen(Relay(), b);
    WireFormOfDecode(b);
    var f, extension := Decode(b).value, ExtensionOf(b);
    if extension == [] {
      assert WireForm(f, []) == b;
    } else {
      assert |WireForm(f, [])| < |WireForm(f, extension)|;
    }
  }

  /** The decoder accepts exactly the grammar, and reads each sentence of it one way. */
  lemma DecodeIsTheGrammar(b: seq<byte>, f: Frame)
    ensures Decode(b) == Ok(f) <==>
            Encodable(f) && exists extension: seq<byte> ::
              HeaderLen(f) + |extension| < U16_LIMIT && b == WireForm(f, extension)
  {
    hide Decode, WireForm, WhyNotEncoded;
    if Decode(b) == Ok(f) {
      WireFormOfDecode(b);
    }
    if extension: seq<byte> :| Encodable(f) && HeaderLen(f) + |extension| < U16_LIMIT && b == WireForm(f, extension) {
      DecodeOfWireForm(f, extension);
    }
  }

  // ---- Step by step ----

  method ReadFields(cursor: Cursor, kind: byte) returns (values: seq<nat>)
    requires kind in Relay().layouts && cursor.Valid() && cursor.widths == []
    requires Total(FieldWidths(kind)) <= |cursor.rest|
    modifies cursor
    ensures cursor.Valid() && values == Parse(FieldWidths(kind), old(cursor.rest))
    ensures cursor.rest == old(cursor.rest)[Total(FieldWidths(kind))..]
  {
    assert cursor.start == cursor.rest;
    hide Parse, Total;
    HeaderHoldsFields(kind);
    if kind != DATA && kind != PROBE { return []; }
    var address := ReadAddress(cursor);
    if kind == DATA {
      var deliveryStream := cursor.Get(16);
      var deliverySequence := cursor.Get(8);
      var channel := cursor.Get(4);
      var sendType := cursor.Get(4);
      values := address + [deliveryStream, deliverySequence, channel, sendType];
    } else {
      var phase := cursor.Get(1);
      var reserved := cursor.Get(7);
      values := address + [phase, reserved];
    }
    assert cursor.values == values && cursor.widths == FieldWidths(kind);
  }

  method ReadAddress(cursor: Cursor) returns (values: seq<nat>)
    requires cursor.Valid() && cursor.widths == [] && |cursor.rest| >= 32
    modifies cursor
    ensures cursor.Valid() && cursor.start == old(cursor.start) && |cursor.rest| == |old(cursor.rest)| - 32
    ensures cursor.widths == AddressWidths() && cursor.values == values
  {
    assert cursor.values == [];
    hide Parse, Total;
    var connectionId := cursor.Get(8);
    var id := cursor.Get(8);
    var fromSteam := cursor.Get(8);
    var toSteam := cursor.Get(8);
    values := [connectionId, id, fromSteam, toSteam];
  }

  /** The decoder as the code runs it: one cursor over the bytes, never past their end. */
  method DecodeFrame(bytes: seq<byte>) returns (frame: Result<Frame, DecodeError>)
    ensures frame == Decode(bytes)
  {
    hide Build, FieldWidths, Open;
    var cursor := new Cursor(bytes);
    var header := cursor.ReadHeader(Relay());
    if header.Err? { return Err(BadHeader(header.error)); }
    var e := header.value;
    HeaderHoldsFields(e.kind);
    PrintOfParse(FieldWidths(e.kind), e.body);
    var values := ReadFields(cursor, e.kind);
    cursor.Skip(e.headerLen - Relay().layouts[e.kind].minimum);
    assert cursor.rest == e.body[e.headerLen - COMMON_HEADER_LEN..];
    frame := Build(e.kind, values, cursor.rest);
  }

  method PutFields(buffer: Buffer, f: Frame)
    requires buffer.Valid() && buffer.widths == []
    modifies buffer
    ensures buffer.bytes == buffer.prefix + Print(FieldWidths(Kind(f)), Fields(f))
  {
    hide Print;
    match f {
      case ClientControl(_) =>
      case ServerControl(_) =>
      case Data(connectionId, frameId, fromSteam, toSteam, stream, sequence, channel, sendType, _) =>
        PutAddress(buffer, connectionId, frameId, fromSteam, toSteam);
        buffer.Put(stream, 16);
        buffer.Put(sequence, 8);
        buffer.Put(FromSigned(channel), 4);
        buffer.Put(FromSigned(sendType), 4);
      case Probe(connectionId, probeId, fromSteam, toSteam, phase) =>
        PutAddress(buffer, connectionId, probeId, fromSteam, toSteam);
        buffer.Put(if phase.Request? then 1 else 2, 1);
        buffer.Put(0, 7);
    }
    assert buffer.widths == FieldWidths(Kind(f)) && buffer.values == Fields(f);
  }

  method PutAddress(buffer: Buffer, connectionId: u64, id: u64, fromSteam: u64, toSteam: u64)
    requires buffer.Valid() && buffer.widths == []
    modifies buffer
    ensures buffer.Valid() && buffer.widths == AddressWidths()
    ensures buffer.values == [connectionId, id, fromSteam, toSteam]
  {
    hide Print;
    buffer.Put(connectionId, 8);
    buffer.Put(id, 8);
    buffer.Put(fromSteam, 8);
    buffer.Put(toSteam, 8);
  }

  /** The encoder as the code runs it: bytes appended to one buffer. */
  method EncodeFrame(f: Frame) returns (r: Result<seq<byte>, EncodeError>)
    ensures r == Encode(f)
  {
    hide FieldWidths, Fields, Print, HeaderBytes, WhyNotEncoded;
    var refusal := WhyNotEncoded(f);
    if refusal.Some? { return Err(refusal.value); }
    var buffer := new Buffer(HeaderBytes(Relay(), Kind(f), HeaderLen(f), |Payload(f)|));
    PutFields(buffer, f);
    r := Ok(buffer.bytes + Payload(f));
    var fields := Print(FieldWidths(Kind(f)), Fields(f));
    assert fields + [] + Payload(f) == fields + Payload(f);
    assert buffer.prefix + (fields + Payload(f)) == buffer.prefix + fields + Payload(f);
  }
}
