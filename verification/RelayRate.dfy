/** How much a connection may send in any second, wherever the second begins. */
module RelayRate {
  import opened Prelude
  import opened FrameWindow
  import opened RelayModel
  import opened RelayInvariant
  import opened RelayLife
  import opened RelayTraffic
  import RelayFrame

  // ---- What the relay can receive ----

  const MIN_DATA_LEN: nat := RelayFrame.DATA_FRAME_HEADER_LEN
  const MIN_PROBE_LEN: nat := RelayFrame.PROBE_FRAME_HEADER_LEN
  const MAX_DATA_LEN: nat := 0xFFFF + RelayFrame.MAX_DATA_PAYLOAD

  /** Only frames that were decoded are routed, with the length they came in. */
  predicate Receivable(e: Event) {
    && (e.RouteDataEvent? ==> e.request.frameId != 0 && MIN_DATA_LEN <= e.request.frameBytes <= MAX_DATA_LEN)
    && (e.RouteProbeEvent? ==> MIN_PROBE_LEN <= e.request.frameBytes <= 0xFFFF)
  }

  /** The event a received datagram or TCP frame turns into. */
  function Routed(f: RelayFrame.Frame, length: u64, source: Source, now: Instant): Event
    requires f.Data? || f.Probe?
  {
    if f.Data? then RouteDataEvent(Request(f.connectionId, f.frameId, f.fromSteam, f.toSteam, source, length, now))
    else RouteProbeEvent(Request(f.connectionId, f.probeId, f.fromSteam, f.toSteam, source, length, now))
  }

  /** Every frame the decoder accepts is receivable in this sense, and both bounds of a data frame are met by some. */
  lemma DecodedIsReceivable(b: seq<byte>, source: Source, now: Instant)
    requires RelayFrame.Decode(b).Ok? && |b| <= U64_MAX
    requires RelayFrame.Decode(b).value.Data? || RelayFrame.Decode(b).value.Probe?
    ensures Receivable(Routed(RelayFrame.Decode(b).value, |b|, source, now))
  {
    RelayFrame.LengthOfDecoded(b);
  }

  // ---- A counter that starts anew once a second ----

  /** When the current window began and what was used of it. */
  datatype Meter = Meter(started: Instant, used: nat)

  ghost predicate Charged(m: Meter, m': Meter, now: Instant, cost: nat) {
    m' == if now - m.started >= RATE_WINDOW then Meter(now, cost) else Meter(m.started, m.used + cost)
  }

  predicate During(t: Instant, now: Instant) { t <= now < t + RATE_WINDOW }

  /** What can still be used in the second that begins at `t`, the last charge having been at `last`. */
  function Left(m: Meter, last: Instant, t: Instant, limit: nat): int {
    if last >= t + RATE_WINDOW then 0
    else if m.started >= t then limit - m.used
    else if last < t then 2 * limit
    else 2 * limit - m.used
  }

  lemma ChargeUsesUp(m: Meter, m': Meter, last: Instant, now: Instant, t: Instant, limit: nat, cost: nat)
    requires last <= now && m.used <= limit && m'.used <= limit && Charged(m, m', now, cost)
    ensures (if During(t, now) then cost else 0) + Left(m', now, t, limit) <= Left(m, last, t, limit)
  {
  }

  /** What the budget counts. */
  datatype Gauge = Packets | Bytes | Probes

  function MeterOf(b: Budget, g: Gauge): Meter {
    match g
    case Packets => Meter(b.windowStarted, b.packets)
    case Bytes => Meter(b.windowStarted, b.bytes)
    case Probes => Meter(b.probeWindowStarted, b.probes)
  }

  function LimitOf(config: Config, g: Gauge): nat {
    match g
    case Packets => config.packetLimit
    case Bytes => ByteCap(config)
    case Probes => PROBE_RATE_LIMIT
  }

  /** The bytes one window can hold: the burst, or the rate if that is less; but one frame always fits the rate. */
  function ByteCap(config: Config): nat {
    var rate := if config.byteRateLimit >= MAX_DATA_LEN then config.byteRateLimit else MAX_DATA_LEN;
    if config.byteBurstLimit <= rate then config.byteBurstLimit else rate
  }

  /** What a delivered event uses. */
  function CostOf(e: Event, g: Gauge): nat
    requires IsRoute(e)
  {
    match g
    case Packets => 1
    case Bytes => e.request.frameBytes
    case Probes => if e.RouteProbeEvent? then 1 else 0
  }

  /** Some limit is low enough that the counter passes it before it saturates. */
  predicate Counted(config: Config, g: Gauge) {
    match g
    case Packets => config.packetLimit < 0xFFFF_FFFF
    case Bytes => config.byteBurstLimit < U64_MAX || config.byteRateLimit < U64_MAX
    case Probes => true
  }

  /** So many bytes hold more of the shortest data frames than the packet counter can count. */
  const UNCOUNTED_BYTES: nat := MIN_DATA_LEN * 0x1_0000_0000

  /** The meter is within its limit and will be charged exactly: its counter is counted, or every packet has paid for a
      shortest data frame out of a byte cap that holds no more of them than the packet counter can count. */
  ghost predicate Exact(config: Config, b: Budget, g: Gauge, probing: bool) {
    && MeterOf(b, g).used <= LimitOf(config, g)
    && (|| Counted(config, g)
        || (g.Packets? && !probing && ByteCap(config) < UNCOUNTED_BYTES
            && MIN_DATA_LEN * b.packets <= b.bytes <= ByteCap(config)))
  }

  lemma TrafficIsCharged(b: Budget, config: Config, e: Event, g: Gauge, probing: bool)
    requires IsRoute(e) && Receivable(e) && !g.Probes? && Exact(config, b, g, probing)
    requires Counted(config, g) || e.RouteDataEvent?
    ensures var (b', allowed) := CheckTraffic(b, config, e.request.frameBytes, e.request.now);
            && Charged(MeterOf(b, g), MeterOf(b', g), e.request.now, if allowed then CostOf(e, g) else 0)
            && Exact(config, b', g, probing)
  {
  }

  lemma ProbeIsCharged(b: Budget, now: Instant)
    requires b.probes <= PROBE_RATE_LIMIT
    ensures var (b', allowed) := CheckProbe(b, now);
            && Charged(MeterOf(b, Probes), MeterOf(b', Probes), now, if allowed then 1 else 0)
            && b'.probes <= PROBE_RATE_LIMIT
  {
  }

  /** The two checks keep separate accounts. */
  lemma ChecksAreSeparate(b: Budget, config: Config, frameBytes: u64, now: Instant)
    ensures MeterOf(CheckTraffic(b, config, frameBytes, now).0, Probes) == MeterOf(b, Probes)
    ensures forall g: Gauge :: !g.Probes? ==> MeterOf(CheckProbe(b, now).0, g) == MeterOf(b, g)
  {
  }

  // ---- Whole runs ----

  /** What the event delivers for the connection in the second that begins at `t`. */
  ghost function DeliveredBy(s: State, e: Event, c: ConnectionId, t: Instant, g: Gauge): nat {
    if IsRoute(e) && e.request.connection == c && Answer(s, e).Ok? && During(t, e.request.now)
    then CostOf(e, g) else 0
  }

  ghost function Delivered(s: State, es: seq<Event>, c: ConnectionId, t: Instant, g: Gauge): nat
    decreases |es|
  {
    if es == [] then 0 else DeliveredBy(s, es[0], c, t, g) + Delivered(Step(s, es[0]), es[1..], c, t, g)
  }

  function LastSent(e: Event, c: ConnectionId, last: Instant): Instant {
    if IsRoute(e) && e.request.connection == c then e.request.now else last
  }

  /** The clock does not run backwards between frames of the connection. */
  ghost predicate ClockAdvances(es: seq<Event>, c: ConnectionId, last: Instant)
    decreases |es|
  {
    es != [] ==> LastSent(es[0], c, last) >= last && ClockAdvances(es[1..], c, LastSent(es[0], c, last))
  }

  lemma TimeUsesUp(m: Meter, last: Instant, now: Instant, t: Instant, limit: nat)
    requires last <= now && m.used <= limit
    ensures Left(m, now, t, limit) <= Left(m, last, t, limit)
  {
  }

  ghost function MeterIn(s: State, c: ConnectionId, g: Gauge): Meter
    requires Has(s, c)
  {
    MeterOf(PeerOf(s, c).budget, g)
  }

  ghost predicate ExactIn(s: State, c: ConnectionId, g: Gauge)
    requires Has(s, c)
  {
    Exact(s.config, PeerOf(s, c).budget, g, CanProbe(PeerOf(s, c).capabilities))
  }

  /** The account before and after, whether anything was delivered, and what was charged. */
  ghost predicate Settles(m: Meter, m': Meter, now: Instant, cost: nat, due: nat, delivered: bool) {
    && (delivered ==> cost == due)
    && (Charged(m, m', now, cost) || (m' == m && (!delivered || due == 0)))
  }

  /** A frame of the connection is charged before it can be delivered, or refused without a charge. */
  lemma DataIsCharged(s: State, e: Event, c: ConnectionId, g: Gauge) returns (cost: nat)
    requires e.RouteDataEvent? && Receivable(e) && e.request.connection == c && Has(s, c) && Has(Step(s, e), c)
    requires ExactIn(s, c, g)
    ensures ExactIn(Step(s, e), c, g)
    ensures Settles(MeterIn(s, c, g), MeterIn(Step(s, e), c, g), e.request.now, cost, CostOf(e, g), Answer(s, e).Ok?)
  {
    var r, p := e.request, PeerOf(s, c);
    var (b, allowed) := CheckTraffic(p.budget, s.config, r.frameBytes, r.now);
    ChecksAreSeparate(p.budget, s.config, r.frameBytes, r.now);
    if g.Probes? { SameProbes(s.config, p.budget, b, CanProbe(p.capabilities)); }
    else { TrafficIsCharged(p.budget, s.config, e, g, CanProbe(p.capabilities)); }
    cost := if allowed then CostOf(e, g) else 0;
    DataStep(s, e, c);
    hide CheckTraffic, Charged, MeterOf, LimitOf, Exact, Step, Answer, CanProbe, Receivable;
  }

  /** What a data frame does to its sender, as far as the budget is concerned. */
  lemma DataStep(s: State, e: Event, c: ConnectionId)
    requires e.RouteDataEvent? && e.request.connection == c && Has(s, c) && Has(Step(s, e), c)
    ensures var r, p, p' := e.request, PeerOf(s, c), PeerOf(Step(s, e), c);
            var (b, allowed) := CheckTraffic(p.budget, s.config, r.frameBytes, r.now);
            && p'.capabilities == p.capabilities && Step(s, e).config == s.config
            && (p'.budget == b || (p'.budget == p.budget && Answer(s, e).Err?))
            && (Answer(s, e).Ok? ==> allowed)
  {
    hide CheckTraffic, Observe, TargetDestination, SourceError;
  }

  lemma SameProbes(config: Config, b: Budget, b': Budget, probing: bool)
    requires MeterOf(b', Probes) == MeterOf(b, Probes) && Exact(config, b, Probes, probing)
    ensures Exact(config, b', Probes, probing)
  {
  }

  lemma ProbesAreCharged(s: State, e: Event, c: ConnectionId, g: Gauge) returns (cost: nat)
    requires e.RouteProbeEvent? && Receivable(e) && e.request.connection == c && Has(s, c) && Has(Step(s, e), c)
    requires ExactIn(s, c, g)
    ensures ExactIn(Step(s, e), c, g)
    ensures Settles(MeterIn(s, c, g), MeterIn(Step(s, e), c, g), e.request.now, cost, CostOf(e, g), Answer(s, e).Ok?)
  {
    var r, p := e.request, PeerOf(s, c);
    var (b, allowed) := CheckTraffic(p.budget, s.config, r.frameBytes, r.now);
    cost := 0;
    ProbeStep(s, e, c);
    if CanProbe(p.capabilities) {
      ChecksAreSeparate(p.budget, s.config, r.frameBytes, r.now);
      ChecksAreSeparate(b, s.config, r.frameBytes, r.now);
      if g.Probes? {
        ProbeIsCharged(b, r.now);
        cost := if CheckProbe(b, r.now).1 then 1 else 0;
      } else {
        TrafficIsCharged(p.budget, s.config, e, g, true);
        cost := if allowed then CostOf(e, g) else 0;
      }
      hide Charged, CheckTraffic, CheckProbe, Step, Answer, CanProbe, Receivable, ByteCap;
    } else {
      hide Charged, CheckTraffic, CheckProbe, Step, Answer, CanProbe, Receivable, Exact, MeterOf;
    }
  }

  /** The same for a probe, which is charged twice. */
  lemma ProbeStep(s: State, e: Event, c: ConnectionId)
    requires e.RouteProbeEvent? && e.request.connection == c && Has(s, c) && Has(Step(s, e), c)
    ensures var r, p, p' := e.request, PeerOf(s, c), PeerOf(Step(s, e), c);
            var (b, allowed) := CheckTraffic(p.budget, s.config, r.frameBytes, r.now);
            var (b', probeAllowed) := CheckProbe(b, r.now);
            && p'.capabilities == p.capabilities && Step(s, e).config == s.config
            && (!CanProbe(p.capabilities) ==> p'.budget == p.budget && Answer(s, e).Err?)
            && (|| (p'.budget == p.budget && Answer(s, e).Err?)
                || (p'.budget == b && !allowed && Answer(s, e).Err?)
                || (p'.budget == b' && allowed && (Answer(s, e).Ok? ==> probeAllowed)))
  {
    hide CheckTraffic, CheckProbe, TargetDestination, SourceError, CanProbe;
  }

  lemma StepUsesUp(s: State, e: Event, c: ConnectionId, last: Instant, t: Instant, g: Gauge)
    requires Valid(s) && Legal(s, e) && Receivable(e)
    requires c in s.index && c in Step(s, e).index && !Issues(s, e, c)
    requires LastSent(e, c, last) >= last
    requires Has(s, c) && ExactIn(s, c, g)
    ensures Has(Step(s, e), c) && ExactIn(Step(s, e), c, g)
    ensures DeliveredBy(s, e, c, t, g) + Left(MeterIn(Step(s, e), c, g), LastSent(e, c, last), t, LimitOf(s.config, g))
            <= Left(MeterIn(s, c, g), last, t, LimitOf(s.config, g))
  {
    StepMinds(s, e, c);
    StepContinues(s, e, c);
    StepKeepsValid(s, e);
    var m, m', limit := MeterIn(s, c, g), MeterIn(Step(s, e), c, g), LimitOf(s.config, g);
    assert m.used <= limit;
    hide Valid, Legal, Issues, Step, Receivable;
    if IsRoute(e) && e.request.connection == c {
      var cost;
      if e.RouteDataEvent? { cost := DataIsCharged(s, e, c, g); } else { cost := ProbesAreCharged(s, e, c, g); }
      assert m'.used <= limit;
      hide Answer, Exact, MeterOf, LimitOf;
      if m' == m { TimeUsesUp(m, last, e.request.now, t, limit); }
      if Charged(m, m', e.request.now, cost) { ChargeUsesUp(m, m', last, e.request.now, t, limit, cost); }
    } else {
      hide Answer, Exact, MeterOf, LimitOf, RefusesMore;
    }
  }

  ghost predicate AllReceivable(es: seq<Event>) { forall i :: 0 <= i < |es| ==> Receivable(es[i]) }

  /** A run a connection can see: legal, its own life, its frames in the order of the clock, all frames decoded. */
  ghost predicate Admissible(s: State, es: seq<Event>, c: ConnectionId, last: Instant) {
    LegalRun(s, es) && LivesThrough(s, es, c) && ClockAdvances(es, c, last) && AllReceivable(es)
  }

  lemma LeftIsNotNegative(m: Meter, last: Instant, t: Instant, limit: nat)
    requires m.used <= limit
    ensures 0 <= Left(m, last, t, limit) <= 2 * limit
  {
  }

  lemma AdmissibleHead(s: State, es: seq<Event>, c: ConnectionId, last: Instant)
    requires es != [] && Admissible(s, es, c, last)
    ensures var e, s' := es[0], Step(s, es[0]);
            && Legal(s, e) && Receivable(e) && c in s.index && c in s'.index && !Issues(s, e, c)
            && LastSent(e, c, last) >= last && Admissible(s', es[1..], c, LastSent(e, c, last))
  {
    hide Step, Legal, Issues, Receivable;
    assert LivesThrough(Step(s, es[0]), es[1..], c);
  }

  lemma {:induction false} RunUsesUp(s: State, es: seq<Event>, c: ConnectionId, last: Instant, t: Instant, g: Gauge)
    requires Valid(s) && Admissible(s, es, c, last) && Has(s, c) && ExactIn(s, c, g)
    ensures Delivered(s, es, c, t, g) <= Left(MeterIn(s, c, g), last, t, LimitOf(s.config, g))
    decreases |es|
  {
    if es == [] {
      LeftIsNotNegative(MeterIn(s, c, g), last, t, LimitOf(s.config, g));
    } else {
      AdmissibleHead(s, es, c, last);
      hide Valid, Step, Left, Legal, Issues, DeliveredBy, Exact, MeterOf, LimitOf, Admissible, Receivable;
      var e, s' := es[0], Step(s, es[0]);
      StepKeepsValid(s, e);
      StepUsesUp(s, e, c, last, t, g);
      RunUsesUp(s', es[1..], c, LastSent(e, c, last), t, g);
    }
  }

  lemma TwiceTheLimit(s: State, es: seq<Event>, c: ConnectionId, last: Instant, t: Instant, g: Gauge)
    requires Valid(s) && Admissible(s, es, c, last) && Has(s, c) && ExactIn(s, c, g)
    ensures Delivered(s, es, c, t, g) <= 2 * LimitOf(s.config, g)
  {
    RunUsesUp(s, es, c, last, t, g);
    LeftIsNotNegative(MeterIn(s, c, g), last, t, LimitOf(s.config, g));
  }

  /** Frames have a shortest and a longest length, so packets and bytes bound each other. */
  lemma {:induction false} PacketsAndBytes(s: State, es: seq<Event>, c: ConnectionId, t: Instant)
    requires AllReceivable(es)
    ensures var packets, bytes := Delivered(s, es, c, t, Packets), Delivered(s, es, c, t, Bytes);
            && bytes <= MAX_DATA_LEN * packets
            && MIN_DATA_LEN * packets <= bytes + (MIN_DATA_LEN - MIN_PROBE_LEN) * Delivered(s, es, c, t, Probes)
    decreases |es|
  {
    hide Step, Answer;
    if es != [] {
      assert Receivable(es[0]);
      PacketsAndBytes(Step(s, es[0]), es[1..], c, t);
    }
  }

  /** Every account is within its limit, and every packet has paid for a shortest data frame. */
  ghost predicate Fresh(b: Budget, config: Config) {
    && b.packets <= config.packetLimit && b.bytes <= ByteCap(config) && b.probes <= PROBE_RATE_LIMIT
    && MIN_DATA_LEN * b.packets <= b.bytes
  }

  /** When a limit limits at all. Packets: their own counter, or a byte cap below what outruns it; for a connection that
      may probe, below that by what twenty of the shorter probes could save. Bytes: their counter or that of packets. */
  predicate Countable(config: Config, g: Gauge, probing: bool) {
    || Counted(config, g)
    || (g.Packets? && ByteCap(config) < UNCOUNTED_BYTES - if probing then 280 else 0)
    || (g.Bytes? && Counted(config, Packets))
  }

  /** Whenever the second begins, a connection gets at most twice its packet limit, twice its byte cap and twice ten
      probes delivered in it: the budget's fixed windows cannot be straddled for more. */
  lemma RateHoldsInEverySecond(s: State, es: seq<Event>, c: ConnectionId, last: Instant, t: Instant, g: Gauge)
    requires Valid(s) && Admissible(s, es, c, last) && Has(s, c) && Fresh(PeerOf(s, c).budget, s.config)
    requires Countable(s.config, g, CanProbe(PeerOf(s, c).capabilities))
    ensures Delivered(s, es, c, t, g) <= 2 * LimitOf(s.config, g)
  {
    hide Valid, Admissible, Delivered, CanProbe;
    var probing := CanProbe(PeerOf(s, c).capabilities);
    if Counted(s.config, g) || (g.Packets? && !probing) {
      TwiceTheLimit(s, es, c, last, t, g);
    } else {
      assert AllReceivable(es) by { AdmissibleIsReceivable(s, es, c, last); }
      PacketsAndBytes(s, es, c, t);
      if g.Packets? {
        TwiceTheLimit(s, es, c, last, t, Bytes);
        TwiceTheLimit(s, es, c, last, t, Probes);
      } else {
        TwiceTheLimit(s, es, c, last, t, Packets);
      }
    }
  }

  lemma AdmissibleIsReceivable(s: State, es: seq<Event>, c: ConnectionId, last: Instant)
    requires Admissible(s, es, c, last)
    ensures AllReceivable(es)
  {
  }

  /** Twice the limit is reached, for a limit of one: a packet just before a window ends and one as the next begins. */
  lemma WindowsCanBeStraddled()
    ensures var config := Config(1, 2, 0, 1, 100, 100);
            var (b, first) := CheckTraffic(NewBudget(0), config, MIN_DATA_LEN, RATE_WINDOW - 1);
            var (_, second) := CheckTraffic(b, config, MIN_DATA_LEN, RATE_WINDOW);
            first && second && During(RATE_WINDOW - 1, RATE_WINDOW)
  {
  }

  /** An admitted connection starts with an unused budget and an empty window. */
  lemma AdmissionStartsUnused(s: State, e: Event)
    requires Valid(s) && Legal(s, e) && Admits(s, e)
    ensures var s', c := Step(s, e), e.draw.connection;
            && Has(s', c) && PeerOf(s', c).budget == NewBudget(e.now) && PeerOf(s', c).frames == Empty()
            && Fresh(PeerOf(s', c).budget, s'.config)
  {
    hide Valid, Vacated;
  }

  // ---- Without a countable limit ----

  /** The connection sends a frame to its own player. */
  function FrameToSelf(c: ConnectionId, p: Peer, id: u64, bytes: u64, now: Instant): Event {
    RouteDataEvent(Request(c, id, p.steam, p.steam, FromTcp(p.control), bytes, now))
  }

  /** A TCP connection that can send `id` next. */
  ghost predicate Sends(s: State, c: ConnectionId, id: int) {
    && Valid(s) && Has(s, c) && PeerOf(s, c).profile == Tcp && PeerOf(s, c).presence == Connected
    && (PeerOf(s, c).frames.highest.Some? ==> PeerOf(s, c).frames.highest.value < id)
  }

  lemma FrameIsNew(w: Window, id: u64)
    requires w.highest.Some? ==> w.highest.value < id
    ensures Observe(w, id).1 == New && Observe(w, id).0.highest == Some(id)
  {
  }

  lemma SelfIsTarget(s: State, c: ConnectionId, p: Peer, now: Instant)
    requires Has(s, c) && Valid(PutPeer(s, s.index[c], c, p, now))
    requires p.profile == Tcp && p.presence == Connected
    ensures var room := PutPeer(s, s.index[c], c, p, now).rooms[s.index[c]];
            TargetDestination(room, p.steam, false) == Ok(ToTcp(p.control))
  {
    var room := PutPeer(s, s.index[c], c, p, now).rooms[s.index[c]];
    assert RoomOk(s.config, room);
    hide Valid;
    assert room.peers[c] == p;
    assert FindSteam(room, p.steam) == c;
  }

  /** The sender's record after a frame that the window and the budget let through. */
  ghost function Sent(p: Peer, config: Config, id: u64, bytes: u64, now: Instant): Peer {
    p.(frames := Observe(p.frames, id).0, budget := CheckTraffic(p.budget, config, bytes, now).0, lastSeen := now)
  }

  lemma FramePuts(s: State, c: ConnectionId, id: u64, bytes: u64, now: Instant)
    requires Has(s, c) && PeerOf(s, c).profile == Tcp && Observe(PeerOf(s, c).frames, id).1 == New
    requires CheckTraffic(PeerOf(s, c).budget, s.config, bytes, now).1
    ensures var p, e := PeerOf(s, c), FrameToSelf(c, PeerOf(s, c), id, bytes, now);
            var s' := PutPeer(s, s.index[c], c, Sent(p, s.config, id, bytes, now), now);
            RouteData(s, e.request) == (s', TargetDestination(s'.rooms[s.index[c]], p.steam, false))
  {
    hide CheckTraffic, Observe, TargetDestination;
  }

  lemma FrameIsDelivered(s: State, c: ConnectionId, id: u64, bytes: u64, now: Instant)
    requires Sends(s, c, id) && CheckTraffic(PeerOf(s, c).budget, s.config, bytes, now).1
    ensures var p, e := PeerOf(s, c), FrameToSelf(c, PeerOf(s, c), id, bytes, now);
            var s' := Step(s, e);
            && Answer(s, e).Ok? && Sends(s', c, id + 1) && s'.config == s.config
            && PeerOf(s', c).budget == CheckTraffic(p.budget, s.config, bytes, now).0
  {
    hide Valid, CheckTraffic, Observe, TargetDestination, RouteData;
    var p := PeerOf(s, c);
    var e, p' := FrameToSelf(c, p, id, bytes, now), Sent(p, s.config, id, bytes, now);
    FrameIsNew(p.frames, id);
    FramePuts(s, c, id, bytes, now);
    RouteDataKeepsValid(s, e.request);
    PutPeerFacts(s, c, p', now, c);
    SelfIsTarget(s, c, p', now);
    hide PutPeer, Has, PeerOf;
  }

  lemma AdmissibleMore(s: State, e: Event, es: seq<Event>, c: ConnectionId, last: Instant, t: Instant, g: Gauge)
    requires e.RouteDataEvent? && e.request.connection == c && c in s.index && last <= e.request.now && Receivable(e)
    requires Admissible(Step(s, e), es, c, e.request.now)
    ensures Admissible(s, [e] + es, c, last)
    ensures Delivered(s, [e] + es, c, t, g) == DeliveredBy(s, e, c, t, g) + Delivered(Step(s, e), es, c, t, g)
  {
    assert ([e] + es)[0] == e && ([e] + es)[1..] == es;
    hide Step, Answer, Receivable;
  }

  predicate Unlimited(config: Config) { config.byteBurstLimit == U64_MAX && config.byteRateLimit == U64_MAX }

  /** `first` frames at `now` fit the window the budget is in, and `second` at `later` the one they find then. */
  ghost predicate Fits(config: Config, b: Budget, first: nat, second: nat, now: Instant, later: Instant) {
    && now <= later
    && (first > 0 ==>
          now - b.windowStarted < RATE_WINDOW <= later - b.windowStarted
          && (b.bytes + MIN_DATA_LEN * first) as int <= ByteCap(config))
    && (second > 0 ==>
          (if later - b.windowStarted >= RATE_WINDOW then 0 else b.bytes) + MIN_DATA_LEN * second <= ByteCap(config))
  }

  lemma FrameFits(config: Config, b: Budget, first: nat, second: nat, now: Instant, later: Instant)
    requires first + second > 0 && config.packetLimit == 0xFFFF_FFFF
    requires ByteCap(config) >= UNCOUNTED_BYTES && Fits(config, b, first, second, now, later)
    ensures var time := if first > 0 then now else later;
            var (b', allowed) := CheckTraffic(b, config, MIN_DATA_LEN, time);
            allowed && (if first > 0 then Fits(config, b', first - 1, second, now, later)
                        else Fits(config, b', 0, second - 1, now, later))
  {
  }

  /** With the packet counter as wide as its limit, shortest data frames pass as long as bytes last. */
  lemma {:induction false} PacketsWithoutEnd(
      s: State, c: ConnectionId, id: int, first: nat, second: nat,
      now: Instant, later: Instant, last: Instant, t: Instant)
    returns (es: seq<Event>)
    requires 0 < id && id + first + second <= U64_MAX && Sends(s, c, id) && s.config.packetLimit == 0xFFFF_FFFF
    requires ByteCap(s.config) >= UNCOUNTED_BYTES && Fits(s.config, PeerOf(s, c).budget, first, second, now, later)
    requires last <= now && During(t, now) && During(t, later)
    ensures Admissible(s, es, c, last) && Delivered(s, es, c, t, Packets) == first + second
    decreases first + second
  {
    es := [];
    hide Valid, Step, Answer, CheckTraffic;
    if first + second > 0 {
      var time := if first > 0 then now else later;
      FrameFits(s.config, PeerOf(s, c).budget, first, second, now, later);
      hide Fits;
      var e := FrameToSelf(c, PeerOf(s, c), id, MIN_DATA_LEN, time);
      FrameIsDelivered(s, c, id, MIN_DATA_LEN, time);
      var rest;
      if first > 0 {
        rest := PacketsWithoutEnd(Step(s, e), c, id + 1, first - 1, second, now, later, time, t);
      } else {
        LaterOnly(s.config, PeerOf(Step(s, e), c).budget, second - 1, now, later);
        rest := PacketsWithoutEnd(Step(s, e), c, id + 1, 0, second - 1, later, later, time, t);
      }
      AdmissibleMore(s, e, rest, c, last, t, Packets);
      es := [e] + rest;
    }
  }

  lemma LaterOnly(config: Config, b: Budget, second: nat, now: Instant, later: Instant)
    requires Fits(config, b, 0, second, now, later)
    ensures Fits(config, b, 0, second, later, later)
  {
  }

  lemma FrameAlwaysFits(config: Config, b: Budget, bytes: u64, now: Instant)
    requires config.packetLimit == 0xFFFF_FFFF && Unlimited(config)
    ensures CheckTraffic(b, config, bytes, now).1
  {
  }

  /** With every counter as wide as its limit, frames of the usual greatest length pass without end. */
  lemma {:induction false} BytesWithoutEnd(s: State, c: ConnectionId, id: int, n: nat, last: Instant, now: Instant)
    returns (es: seq<Event>)
    requires 0 < id && id + n <= U64_MAX && Sends(s, c, id) && last <= now
    requires s.config.packetLimit == 0xFFFF_FFFF && Unlimited(s.config)
    ensures Admissible(s, es, c, last) && Delivered(s, es, c, now, Bytes) == 1472 * n
    decreases n
  {
    es := [];
    hide Valid, Step, Answer, CheckTraffic;
    if n > 0 {
      var e := FrameToSelf(c, PeerOf(s, c), id, 1472, now);
      FrameAlwaysFits(s.config, PeerOf(s, c).budget, 1472, now);
      FrameIsDelivered(s, c, id, 1472, now);
      var rest := BytesWithoutEnd(Step(s, e), c, id + 1, n - 1, now, now);
      AdmissibleMore(s, e, rest, c, last, now, Bytes);
      es := [e] + rest;
    }
  }

  /** Where no limit is countable the bound fails: a newly admitted TCP connection can exceed it with frames the decoder
      accepts. With `RateHoldsInEverySecond`, countable is the exact condition for bytes, for probes, and for the
      packets of a connection that may not probe. */
  lemma RateFailsIfUncountable(s: State, c: ConnectionId, now: Instant, g: Gauge)
    returns (es: seq<Event>, t: Instant)
    requires Sends(s, c, 1) && PeerOf(s, c).budget == NewBudget(now) && !Countable(s.config, g, false)
    ensures Admissible(s, es, c, now) && Delivered(s, es, c, t, g) > 2 * LimitOf(s.config, g)
  {
    hide Valid, Admissible, Delivered;
    if g.Packets? {
      t := now + RATE_WINDOW - 1;
      es := PacketsWithoutEnd(s, c, 1, 0x1_0000_0000, 0x1_0000_0000, t, t + 1, now, t);
    } else {
      t := now;
      es := BytesWithoutEnd(s, c, 1, 0x80_0000_0000_0000, now, now);
    }
  }
}
