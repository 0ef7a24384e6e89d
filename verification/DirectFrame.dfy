/** The direct peer protocol's UDP frames: the encoder, the decoder, and the wire grammar. */
module DirectFrame {
  import opened Prelude
  import opened Wire

  const CHECK_FRAME_HEADER_LEN: nat := 104
  const HEARTBEAT_FRAME_HEADER_LEN: nat := 96
  const DATA_FRAME_HEADER_LEN: nat := 120
  const MAX_FRAME_LEN: nat := 1472
  const MAX_DATA_PAYLOAD: nat := MAX_FRAME_LEN - DATA_FRAME_HEADER_LEN

  const CHECK: byte := 1
  const HEARTBEAT: byte := 2
  const DATA: byte := 3

  /** Magic "TBD2", version 2.0. */
  function Direct(): (p: Protocol)
    ensures Usable(p)
  {
    Protocol([0x54, 0x42, 0x44, 0x32], 2, 0, map[
      CHECK := Layout(CHECK_FRAME_HEADER_LEN, 0),
      HEARTBEAT := Layout(HEARTBEAT_FRAME_HEADER_LEN, 0),
      DATA := Layout(DATA_FRAME_HEADER_LEN, MAX_DATA_PAYLOAD)])
  }

  datatype Phase = Request | Response

  datatype Path = Path(id: u128, token: u128, fromSteam: u64, fromInstance: u128, toSteam: u64)

  datatype Frame =
    | Check(path: Path, transaction: u128, phase: Phase)
    | Heartbeat(path: Path, heartbeatId: u64, phase: Phase)
    | Data(path: Path, frameId: u64, deliveryStream: u128, deliverySequence: u64,
           channel: i32, sendType: i32, payload: seq<byte>)

  datatype EncodeError =
    | TooLarge(length: nat) | NoPathId | NoPathToken | NoSteamId | NoInstanceId | SameSteamId
    | NoTransactionId | NoHeartbeatId | NoFrameId | NoDeliveryStream | NoDeliverySequence

  datatype DecodeError =
    | BadHeader(header: HeaderError)
    | ZeroPathId | ZeroPathToken | ZeroSteamId | ZeroInstanceId | SelfTarget
    | ZeroTransactionId | ZeroHeartbeatId | ZeroFrameId | ZeroDeliveryStream | ZeroDeliverySequence
    | UnknownCheckPhase(code: nat) | UnknownHeartbeatPhase(code: nat) | NonZeroFrameReserved

  function Kind(f: Frame): byte {
    match f
    case Check(_, _, _) => CHECK
    case Heartbeat(_, _, _) => HEARTBEAT
    case Data(_, _, _, _, _, _, _) => DATA
  }

  function FieldWidths(kind: byte): seq<nat> {
    PathWidths() + OwnWidths(kind)
  }

  function PathWidths(): seq<nat> { [16, 16, 8, 16, 8] }

  function OwnWidths(kind: byte): seq<nat> {
    if kind == CHECK then [16, 1, 7]
    else if kind == HEARTBEAT then [8, 1, 7]
    else [8, 16, 8, 4, 4]
  }

  function PhaseCode(phase: Phase): nat { if phase.Request? then 1 else 2 }

  function Fields(f: Frame): (values: seq<nat>)
    ensures |values| == |FieldWidths(Kind(f))|
  {
    var p := f.path;
    match f
    case Check(_, transaction, phase) =>
      [p.id, p.token, p.fromSteam, p.fromInstance, p.toSteam, transaction, PhaseCode(phase), 0]
    case Heartbeat(_, id, phase) =>
      [p.id, p.token, p.fromSteam, p.fromInstance, p.toSteam, id, PhaseCode(phase), 0]
    case Data(_, id, stream, sequence, channel, sendType, _) =>
      [p.id, p.token, p.fromSteam, p.fromInstance, p.toSteam, id, stream, sequence,
       FromSigned(channel), FromSigned(sendType)]
  }

  function Payload(f: Frame): seq<byte> { if f.Data? then f.payload else [] }

  function PathRefusal(p: Path): Option<EncodeError> {
    if p.id == 0 then Some(NoPathId)
    else if p.token == 0 then Some(NoPathToken)
    else if p.fromSteam == 0 || p.toSteam == 0 then Some(NoSteamId)
    else if p.fromInstance == 0 then Some(NoInstanceId)
    else if p.fromSteam == p.toSteam then Some(SameSteamId)
    else None
  }

  function WhyNotEncoded(f: Frame): Option<EncodeError> {
    var refusal := PathRefusal(f.path);
    if refusal.Some? then refusal
    else match f
      case Check(_, transaction, _) => if transaction == 0 then Some(NoTransactionId) else None
      case Heartbeat(_, id, _) => if id == 0 then Some(NoHeartbeatId) else None
      case Data(_, id, stream, sequence, _, _, payload) =>
        if id == 0 then Some(NoFrameId)
        else if stream == 0 then Some(NoDeliveryStream)
        else if sequence == 0 then Some(NoDeliverySequence)
        else if |payload| > MAX_DATA_PAYLOAD then Some(TooLarge(|payload|))
        else None
  }

  predicate Encodable(f: Frame) { WhyNotEncoded(f).None? }

  function HeaderLen(f: Frame): nat { Direct().layouts[Kind(f)].minimum }

  /** The grammar: the frame's bytes with `extension` appended to its header. */
  function WireForm(f: Frame, extension: seq<byte>): seq<byte> {
    Seal(Direct(), Envelope(Kind(f), HeaderLen(f) + |extension|, |Payload(f)|,
                            Print(FieldWidths(Kind(f)), Fields(f)) + extension + Payload(f)))
  }

  function Encode(f: Frame): Result<seq<byte>, EncodeError> {
    match WhyNotEncoded(f)
    case Some(error) => Err(error)
    case None => Ok(WireForm(f, []))
  }

  /** The checks on the path, in the order its parts are read. */
  function PathError(v: seq<nat>): Option<DecodeError>
    requires |v| >= 5
  {
    if v[0] == 0 then Some(ZeroPathId)
    else if v[1] == 0 then Some(ZeroPathToken)
    else if v[2] == 0 then Some(ZeroSteamId)
    else if v[3] == 0 then Some(ZeroInstanceId)
    else if v[4] == 0 then Some(ZeroSteamId)
    else if v[2] == v[4] then Some(SelfTarget)
    else None
  }

  /** The frame with these field values, or the first check they fail. */
  function Build(kind: byte, v: seq<nat>, payload: seq<byte>): Result<Frame, DecodeError>
    requires kind in Direct().layouts && Fit(FieldWidths(kind), v)
  {
    Widths();
    var error := PathError(v);
    if error.Some? then Err(error.value)
    else
      assert forall i :: 0 <= i < |v| ==> v[i] < Power256(FieldWidths(kind)[i]);
      var path := Path(v[0], v[1], v[2], v[3], v[4]);
      if kind == CHECK then
        if v[5] == 0 then Err(ZeroTransactionId)
        else if v[6] != 1 && v[6] != 2 then Err(UnknownCheckPhase(v[6]))
        else if v[7] != 0 then Err(NonZeroFrameReserved)
        else Ok(Check(path, v[5], if v[6] == 1 then Request else Response))
      else if kind == HEARTBEAT then
        if v[5] == 0 then Err(ZeroHeartbeatId)
        else if v[6] != 1 && v[6] != 2 then Err(UnknownHeartbeatPhase(v[6]))
        else if v[7] != 0 then Err(NonZeroFrameReserved)
        else Ok(Heartbeat(path, v[5], if v[6] == 1 then Request else Response))
      else
        if v[5] == 0 then Err(ZeroFrameId)
        else if v[6] == 0 then Err(ZeroDeliveryStream)
        else if v[7] == 0 then Err(ZeroDeliverySequence)
        else Ok(Data(path, v[5], v[6], v[7], ToSigned(v[8]), ToSigned(v[9]), payload))
  }

  lemma HeaderHoldsFields(kind: byte)
    requires kind in Direct().layouts
    ensures Total(FieldWidths(kind)) == Direct().layouts[kind].minimum - COMMON_HEADER_LEN
  {
    TotalConcat(PathWidths(), OwnWidths(kind));
    assert [16, 16, 8, 16, 8][1..] == [16, 8, 16, 8] && [16, 8, 16, 8][1..] == [8, 16, 8] && [8, 16, 8][1..] == [16, 8];
    assert [8, 16, 8, 4, 4][1..] == [16, 8, 4, 4] && [16, 8, 4, 4][1..] == [8, 4, 4] && [8, 4, 4][1..] == [4, 4];
    assert Total([8, 16, 8]) == 32 && Total([8, 4, 4]) == 16;
    assert Total([16, 8, 4, 4]) == 32 && Total([16, 8, 16, 8]) == 48;
    assert [16, 1, 7][1..] == [1, 7] && [8, 1, 7][1..] == [1, 7] && Total([1, 7]) == 8;
  }

  function Decode(b: seq<byte>): Result<Frame, DecodeError> {
    match Open(Direct(), b)
    case Err(error) => Err(BadHeader(error))
    case Ok(e) =>
      SealOfOpen(Direct(), b);
      HeaderHoldsFields(e.kind);
      PrintOfParse(FieldWidths(e.kind), e.body);
      Build(e.kind, Parse(FieldWidths(e.kind), e.body), e.body[e.headerLen - COMMON_HEADER_LEN..])
  }

  lemma FieldsFit(f: Frame)
    ensures Fit(FieldWidths(Kind(f)), Fields(f))
  {
    Widths();
  }

  lemma PathFields(f: Frame)
    requires PathRefusal(f.path).None?
    ensures |Fields(f)| >= 5 && PathError(Fields(f)).None?
    ensures Fields(f)[..5] == [f.path.id, f.path.token, f.path.fromSteam, f.path.fromInstance, f.path.toSteam]
  {
  }

  lemma BuildOfFields(f: Frame)
    requires Encodable(f)
    ensures Fit(FieldWidths(Kind(f)), Fields(f)) && Build(Kind(f), Fields(f), Payload(f)) == Ok(f)
    ensures |Payload(f)| <= Direct().layouts[Kind(f)].maxPayload
  {
    FieldsFit(f);
    PathFields(f);
    var v := Fields(f);
    assert v[0] == v[..5][0] && v[1] == v[..5][1] && v[2] == v[..5][2] && v[3] == v[..5][3] && v[4] == v[..5][4];
    hide Fit, FieldWidths, PathError, PathRefusal;
    match f {
      case Check(path, transaction, phase) => assert v[5..] == [transaction, PhaseCode(phase), 0];
      case Heartbeat(path, id, phase) => assert v[5..] == [id, PhaseCode(phase), 0];
      case Data(path, id, stream, sequence, channel, sendType, _) =>
        assert v[5..] == [id, stream, sequence, FromSigned(channel), FromSigned(sendType)];
    }
  }

  lemma FieldsOfBuild(kind: byte, v: seq<nat>, payload: seq<byte>)
    requires kind in Direct().layouts && Fit(FieldWidths(kind), v) && Build(kind, v, payload).Ok?
    requires |payload| <= Direct().layouts[kind].maxPayload
    ensures var f := Build(kind, v, payload).value;
            Encodable(f) && Kind(f) == kind && Fields(f) == v && Payload(f) == payload
  {
    assert |v| == |FieldWidths(kind)|;
    hide Fit;
  }

  /** Header extension is transparent, and with no extension decoding inverts encoding. */
  lemma DecodeOfWireForm(f: Frame, extension: seq<byte>)
    requires Encodable(f) && HeaderLen(f) + |extension| < U16_LIMIT
    ensures Decode(WireForm(f, extension)) == Ok(f)
  {
    hide Build, Fields, FieldWidths, Open, Seal, WhyNotEncoded, Print, Parse, Total;
    var fields := Print(FieldWidths(Kind(f)), Fields(f));
    var e := Envelope(Kind(f), HeaderLen(f) + |extension|, |Payload(f)|, fields + extension + Payload(f));
    HeaderHoldsFields(Kind(f));
    BuildOfFields(f);
    OpenOfSeal(Direct(), e);
    assert e.body == fields + (extension + Payload(f));
    ParseOfPrint(FieldWidths(Kind(f)), Fields(f), extension + Payload(f));
    assert e.body[e.headerLen - COMMON_HEADER_LEN..] == Payload(f);
  }

  /** The bytes of an accepted frame's header beyond the fields this version knows. */
  function ExtensionOf(b: seq<byte>): (extension: seq<byte>)
    requires Open(Direct(), b).Ok?
    ensures var e := Open(Direct(), b).value; |extension| == e.headerLen - Direct().layouts[e.kind].minimum
  {
    SealOfOpen(Direct(), b);
    var e := Open(Direct(), b).value;
    b[Direct().layouts[e.kind].minimum..e.headerLen]
  }

  /** Every accepted byte string is the wire form of the frame it decodes to. */
  lemma WireFormOfDecode(b: seq<byte>)
    requires Decode(b).Ok?
    ensures Encodable(Decode(b).value) && WireForm(Decode(b).value, ExtensionOf(b)) == b
    ensures Kind(Decode(b).value) == Open(Direct(), b).value.kind
    ensures HeaderLen(Decode(b).value) + |ExtensionOf(b)| < U16_LIMIT
  {
    hide Build, Fields, FieldWidths, Open, WhyNotEncoded, HeaderBytes, Print, Parse, Total;
    var e := Open(Direct(), b).value;
    SealOfOpen(Direct(), b);
    HeaderHoldsFields(e.kind);
    PrintOfParse(FieldWidths(e.kind), e.body);
    var payload := e.body[e.headerLen - COMMON_HEADER_LEN..];
    FieldsOfBuild(e.kind, Parse(FieldWidths(e.kind), e.body), payload);
    var f := Decode(b).value;
    assert ExtensionOf(b) == e.body[Total(FieldWidths(e.kind))..e.headerLen - COMMON_HEADER_LEN];
    assert e.body == e.body[..Total(FieldWidths(e.kind))] + ExtensionOf(b) + payload;
  }

  lemma LengthOfWireForm(f: Frame, extension: seq<byte>)
    ensures |WireForm(f, extension)| == HeaderLen(f) + |extension| + |Payload(f)|
    ensures WireForm(f, extension)[HeaderLen(f)..HeaderLen(f) + |extension|] == extension
  {
    hide FieldWidths, Fields, Print, HeaderBytes, Total;
    HeaderHoldsFields(Kind(f));
    var header := HeaderBytes(Direct(), Kind(f), HeaderLen(f) + |extension|, |Payload(f)|);
    var fields := Print(FieldWidths(Kind(f)), Fields(f));
    ThirdPart(header, fields, extension, Payload(f), HeaderLen(f));
  }

  /** Re-encoding returns the same bytes whenever the header has its minimum length. */
  lemma MinimalHeaderReencodes(b: seq<byte>)
    requires Decode(b).Ok?
    ensures Encode(Decode(b).value) == Ok(b) <==> Open(Direct(), b).value.headerLen == HeaderLen(Decode(b).value)
  {
    hide Build, WhyNotEncoded, Open, Fields, FieldWidths;
    SealOfOpen(Direct(), b);
    WireFormOfDecode(b);
    var f, extension := Decode(b).value, ExtensionOf(b);
    if extension == [] {
      assert WireForm(f, []) == b;
    } else {
      assert |WireForm(f, [])| < |WireForm(f, extension)|;
    }
  }

  /** The decoder accepts exactly the grammar, and reads each sentence of it one way. */
  lemma DecodeIsTheGrammar(b: seq<byte>, f: Frame)
    ensures Decode(b) == Ok(f) <==>
            Encodable(f) && exists extension: seq<byte> ::
              HeaderLen(f) + |extension| < U16_LIMIT && b == WireForm(f, extension)
  {
    hide Decode, WireForm, WhyNotEncoded;
    if Decode(b) == Ok(f) {
      WireFormOfDecode(b);
    }
    if extension: seq<byte> :| Encodable(f) && HeaderLen(f) + |extension| < U16_LIMIT && b == WireForm(f, extension) {
      DecodeOfWireForm(f, extension);
    }
  }

  // ---- Step by step ----

  method ReadPath(cursor: Cursor) returns (values: seq<nat>)
    requires cursor.Valid() && cursor.widths == [] && |cursor.rest| >= 64
    modifies cursor
    ensures cursor.Valid() && cursor.start == old(cursor.start) && |cursor.rest| == |old(cursor.rest)| - 64
    ensures cursor.widths == PathWidths() && cursor.values == values && |values| == 5
  {
    var pathId := cursor.Get(16);
    var pathToken := cursor.Get(16);
    var fromSteam := cursor.Get(8);
    var instance := cursor.Get(16);
    var toSteam := cursor.Get(8);
    values := [pathId, pathToken, fromSteam, instance, toSteam];
  }

  method ReadDeliveryFields(cursor: Cursor) returns (values: seq<nat>)
    requires cursor.Valid() && |cursor.rest| >= 40
    modifies cursor
    ensures cursor.Valid() && cursor.start == old(cursor.start)
    ensures cursor.widths == old(cursor.widths) + OwnWidths(DATA) && cursor.values == old(cursor.values) + values
  {
    hide Parse, Total;
    var frameId := cursor.Get(8);
    var deliveryStream := cursor.Get(16);
    var deliverySequence := cursor.Get(8);
    var channel := cursor.Get(4);
    var sendType := cursor.Get(4);
    values := [frameId, deliveryStream, deliverySequence, channel, sendType];
  }

  method ReadPhaseFields(cursor: Cursor, idWidth: nat) returns (values: seq<nat>)
    requires cursor.Valid() && |cursor.rest| >= idWidth + 8
    modifies cursor
    ensures cursor.Valid() && cursor.start == old(cursor.start)
    ensures cursor.widths == old(cursor.widths) + [idWidth, 1, 7] && cursor.values == old(cursor.values) + values
  {
    hide Parse, Total;
    var id := cursor.Get(idWidth);
    var phase := cursor.Get(1);
    var reserved := cursor.Get(7);
    values := [id, phase, reserved];
  }

  method ReadFields(cursor: Cursor, kind: byte) returns (values: seq<nat>)
    requires kind in Direct().layouts && cursor.Valid() && cursor.widths == []
    requires Total(FieldWidths(kind)) <= |cursor.rest|
    modifies cursor
    ensures cursor.Valid() && values == Parse(FieldWidths(kind), old(cursor.rest))
    ensures cursor.rest == old(cursor.rest)[Total(FieldWidths(kind))..]
  {
    assert cursor.start == cursor.rest;
    hide Parse, Total;
    HeaderHoldsFields(kind);
    values := ReadPath(cursor);
    var own: seq<nat>;
    if kind == DATA {
      own := ReadDeliveryFields(cursor);
    } else {
      own := ReadPhaseFields(cursor, if kind == CHECK then 16 else 8);
    }
    values := values + own;
    assert cursor.values == values && cursor.widths == FieldWidths(kind);
  }

  /** The decoder as the code runs it: one cursor over the bytes, never past their end. */
  method DecodeFrame(bytes: seq<byte>) returns (frame: Result<Frame, DecodeError>)
    ensures frame == Decode(bytes)
  {
    hide Build, FieldWidths, Open, Parse, Total, Value, Print;
    var cursor := new Cursor(bytes);
    var header := cursor.ReadHeader(Direct());
    if header.Err? { return Err(BadHeader(header.error)); }
    var e := header.value;
    HeaderHoldsFields(e.kind);
    PrintOfParse(FieldWidths(e.kind), e.body);
    var values := ReadFields(cursor, e.kind);
    cursor.Skip(e.headerLen - Direct().layouts[e.kind].minimum);
    assert cursor.rest == e.body[e.headerLen - COMMON_HEADER_LEN..];
    frame := Build(e.kind, values, cursor.rest);
  }

  method PutPath(buffer: Buffer, path: Path)
    requires buffer.Valid() && buffer.widths == []
    modifies buffer
    ensures buffer.Valid() && buffer.widths == PathWidths()
    ensures buffer.values == [path.id, path.token, path.fromSteam, path.fromInstance, path.toSteam]
  {
    buffer.Put(path.id, 16);
    buffer.Put(path.token, 16);
    buffer.Put(path.fromSteam, 8);
    buffer.Put(path.fromInstance, 16);
    buffer.Put(path.toSteam, 8);
  }

  method PutPhaseFields(buffer: Buffer, id: nat, idWidth: nat, phase: Phase)
    requires buffer.Valid()
    modifies buffer
    ensures buffer.Valid() && buffer.widths == old(buffer.widths) + [idWidth, 1, 7]
    ensures buffer.values == old(buffer.values) + [id, PhaseCode(phase), 0]
  {
    hide Print;
    buffer.Put(id, idWidth);
    buffer.Put(PhaseCode(phase), 1);
    buffer.Put(0, 7);
  }

  method PutDeliveryFields(buffer: Buffer, f: Frame)
    requires buffer.Valid() && f.Data?
    modifies buffer
    ensures buffer.Valid() && buffer.widths == old(buffer.widths) + OwnWidths(DATA)
    ensures buffer.values == old(buffer.values)
              + [f.frameId, f.deliveryStream, f.deliverySequence, FromSigned(f.channel), FromSigned(f.sendType)]
  {
    hide Print;
    buffer.Put(f.frameId, 8);
    buffer.Put(f.deliveryStream, 16);
    buffer.Put(f.deliverySequence, 8);
    buffer.Put(FromSigned(f.channel), 4);
    buffer.Put(FromSigned(f.sendType), 4);
  }

  method PutFields(buffer: Buffer, f: Frame)
    requires buffer.Valid() && buffer.widths == []
    modifies buffer
    ensures buffer.bytes == buffer.prefix + Print(FieldWidths(Kind(f)), Fields(f))
  {
    hide Print;
    PutPath(buffer, f.path);
    match f {
      case Check(_, transaction, phase) => PutPhaseFields(buffer, transaction, 16, phase);
      case Heartbeat(_, id, phase) => PutPhaseFields(buffer, id, 8, phase);
      case Data(_, _, _, _, _, _, _) => PutDeliveryFields(buffer, f);
    }
    assert buffer.widths == FieldWidths(Kind(f)) && buffer.values == Fields(f);
  }

  /** The encoder as the code runs it: bytes appended to one buffer. */
  method EncodeFrame(f: Frame) returns (r: Result<seq<byte>, EncodeError>)
    ensures r == Encode(f)
  {
    hide FieldWidths, Fields, Print, HeaderBytes, WhyNotEncoded;
    var refusal := WhyNotEncoded(f);
    if refusal.Some? { return Err(refusal.value); }
    var buffer := new Buffer(HeaderBytes(Direct(), Kind(f), HeaderLen(f), |Payload(f)|));
    PutFields(buffer, f);
    r := Ok(buffer.bytes + Payload(f));
    var fields := Print(FieldWidths(Kind(f)), Fields(f));
    assert fields + [] + Payload(f) == fields + Payload(f);
    assert buffer.prefix + (fields + Payload(f)) == buffer.prefix + fields + Payload(f);
  }
}
