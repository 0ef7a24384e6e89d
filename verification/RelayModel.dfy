/** The relay's session state as a value, and what each operation does to it.

    Random draws, the proof-of-work verdict and the clock are parameters. A `HashMap` is a `map`;
    a list built by iterating over one has no defined order, so a broadcast's recipients are a set of
    addressed connections, each with the control peer the message is sent to. */
module RelayModel {
  import opened Prelude
  import opened FrameWindow

  // Keys (sixteen random bytes each) and ids are only ever compared, so any integer stands for one.
  type Key = int
  type PeerId = int
  type ConnectionId = int
  type SteamId = int
  /** Nanoseconds of the monotonic clock. */
  type Instant = int

  const SECOND: nat := 1_000_000_000
  const RECOVERY_GRACE: nat := 120 * SECOND
  const CHALLENGE_LIFETIME: nat := 30 * SECOND
  const RATE_WINDOW: nat := SECOND
  const PROBE_RATE_LIMIT: nat := 10

  datatype Address = Address(host: string, port: u16)
  datatype Profile = Tcp | Udp
  datatype Presence = Connected | Reconnecting
  datatype Source = FromTcp(peer: PeerId) | FromUdp(address: Address)
  datatype Destination = ToTcp(peer: PeerId) | ToUdp(address: Address)

  datatype StateError =
    | RoomFull | RelayFull | MissingChallenge | InvalidChallenge | InvalidProof | UnknownConnection
    | SenderMismatch | ProfileMismatch | PathNotValidated | DuplicateFrame | FrameTooOld | RateLimited
    | TargetNotJoined | TargetUnavailable | ProbeUnsupported | ProbeRateLimited

  datatype ResumeFailure = UnknownResume | InvalidCredential | Expired

  datatype Config = Config(
    maxRooms: nat, maxPeersPerRoom: nat, roomIdle: nat,
    packetLimit: u32, byteRateLimit: u64, byteBurstLimit: u64)

  /** `Instant::duration_since`, which saturates at zero. */
  function Since(now: Instant, earlier: Instant): nat {
    if now > earlier then now - earlier else 0
  }

  // ---- Traffic budget ----

  datatype Budget = Budget(
    windowStarted: Instant, packets: u32, bytes: u64, probeWindowStarted: Instant, probes: u32)

  function NewBudget(now: Instant): Budget { Budget(now, 0, 0, now, 0) }

  function CheckTraffic(b: Budget, config: Config, frameBytes: u64, now: Instant): (Budget, bool) {
    var b := if Since(now, b.windowStarted) >= RATE_WINDOW
             then b.(windowStarted := now, packets := 0, bytes := 0) else b;
    var nextPackets: u32 := if b.packets == 0xFFFF_FFFF then b.packets else b.packets + 1;
    var nextBytes: u64 := if b.bytes + frameBytes > U64_MAX then U64_MAX else b.bytes + frameBytes;
    if nextPackets > config.packetLimit || nextBytes > config.byteBurstLimit
       || (b.bytes > 0 && nextBytes > config.byteRateLimit)
    then (b, false)
    else (b.(packets := nextPackets, bytes := nextBytes), true)
  }

  function CheckProbe(b: Budget, now: Instant): (Budget, bool) {
    var b := if Since(now, b.probeWindowStarted) >= RATE_WINDOW
             then b.(probeWindowStarted := now, probes := 0) else b;
    var next: u32 := if b.probes == 0xFFFF_FFFF then b.probes else b.probes + 1;
    if next > PROBE_RATE_LIMIT then (b, false) else (b.(probes := next), true)
  }

  // ---- State ----

  datatype Pending = Pending(
    session: Key, steam: SteamId, profile: Profile, capabilities: u64, challenge: Key, issuedAt: Instant)

  datatype Peer = Peer(
    control: PeerId, connection: ConnectionId, resumeKey: Key, pathKey: Option<Key>,
    udpAddress: Option<Address>, steam: SteamId, profile: Profile, capabilities: u64,
    presence: Presence, detachedUntil: Option<Instant>, frames: Window, lastSeen: Instant, budget: Budget)

  datatype Room = Room(peers: map<ConnectionId, Peer>, lastSeen: Instant)

  datatype State = State(
    config: Config,
    pending: map<PeerId, Pending>,
    rooms: map<Key, Room>,
    index: map<ConnectionId, Key>,
    controls: map<PeerId, ConnectionId>)

  datatype Recipient = Recipient(connection: ConnectionId, control: PeerId)
  type Broadcast = set<Recipient>

  function Initial(config: Config): State { State(config, map[], map[], map[], map[]) }

  /** The connection is indexed and its room holds a peer under that key. */
  predicate Has(s: State, c: ConnectionId) {
    c in s.index && s.index[c] in s.rooms && c in s.rooms[s.index[c]].peers
  }

  function PeerOf(s: State, c: ConnectionId): Peer
    requires Has(s, c)
  {
    s.rooms[s.index[c]].peers[c]
  }

  /** `CAP_ROOM_PATH_PROBE`, bit three of the capability set. */
  predicate CanProbe(capabilities: u64) { capabilities / 8 % 2 == 1 }

  /** Replaces one peer of one room and stamps the room. */
  function PutPeer(s: State, k: Key, c: ConnectionId, p: Peer, lastSeen: Instant): State
    requires k in s.rooms
  {
    s.(rooms := s.rooms[k := Room(s.rooms[k].peers[c := p], lastSeen)])
  }

  ghost predicate HoldsSteam(room: Room, steam: SteamId) {
    exists c :: c in room.peers && room.peers[c].steam == steam
  }

  ghost function FindSteam(room: Room, steam: SteamId): ConnectionId
    requires HoldsSteam(room, steam)
    ensures FindSteam(room, steam) in room.peers && room.peers[FindSteam(room, steam)].steam == steam
  {
    var c :| c in room.peers && room.peers[c].steam == steam; c
  }

  function Recipients(room: Room, exclude: Option<ConnectionId>): Broadcast {
    set c | c in room.peers && Some(c) != exclude && room.peers[c].presence == Connected
      :: Recipient(c, room.peers[c].control)
  }

  /** The presence broadcast to a room; none when nobody would receive it. */
  function BroadcastTo(s: State, session: Key, exclude: Option<ConnectionId>): Option<Broadcast> {
    if session !in s.rooms then None
    else
      var recipients := Recipients(s.rooms[session], exclude);
      if recipients == {} then None else Some(recipients)
  }

  // ---- Joining ----

  ghost function CapacityError(s: State, session: Key, steam: SteamId): Option<StateError> {
    if session in s.rooms then
      if !HoldsSteam(s.rooms[session], steam) && |s.rooms[session].peers| >= s.config.maxPeersPerRoom
      then Some(RoomFull) else None
    else if |s.rooms| >= s.config.maxRooms then Some(RelayFull) else None
  }

  ghost function BeginJoin(s: State, control: PeerId, join: Pending): (State, Option<StateError>) {
    var error := CapacityError(s, join.session, join.steam);
    if error.Some? then (s, error) else (s.(pending := s.pending[control := join]), None)
  }

  function RemoveConnection(s: State, c: ConnectionId): (State, Option<Broadcast>) {
    if c !in s.index then (s, None)
    else
      var k := s.index[c];
      var s1 := s.(index := s.index - {c});
      if k !in s.rooms || c !in s.rooms[k].peers then (s1, None)
      else
        var room := s.rooms[k];
        var s2 := s1.(rooms := s.rooms[k := room.(peers := room.peers - {c})],
                      controls := s.controls - {room.peers[c].control});
        (s2, BroadcastTo(s2, k, None))
  }

  ghost function RemoveDuplicate(s: State, session: Key, steam: SteamId): State {
    if session in s.rooms && HoldsSteam(s.rooms[session], steam)
    then RemoveConnection(s, s.rooms[session].peers[FindSteam(s.rooms[session], steam)].connection).0
    else s
  }

  datatype Proof = Proof(challenge: Key, accepted: bool)
  /** The random values one admission draws. */
  datatype Draw = Draw(connection: ConnectionId, resumeKey: Key, pathKey: Key)
  datatype Ready = Ready(connection: ConnectionId, resumeKey: Key, profile: Profile, broadcast: Option<Broadcast>)

  ghost function JoinError(s: State, control: PeerId, proof: Proof, now: Instant): Option<StateError> {
    if control !in s.pending then Some(MissingChallenge)
    else
      var join := s.pending[control];
      if join.challenge != proof.challenge then Some(InvalidChallenge)
      else if Since(now, join.issuedAt) > CHALLENGE_LIFETIME then Some(InvalidChallenge)
      else if !proof.accepted then Some(InvalidProof)
      else CapacityError(s, join.session, join.steam)
  }

  /** The state in which the admitted connection's random id is drawn. */
  ghost function Vacated(s: State, control: PeerId): State
    requires control in s.pending
  {
    RemoveDuplicate(s.(pending := s.pending - {control}), s.pending[control].session, s.pending[control].steam)
  }

  function NewPeer(join: Pending, control: PeerId, draw: Draw, now: Instant): Peer {
    Peer(control, draw.connection, draw.resumeKey,
         if join.profile == Udp then Some(draw.pathKey) else None, None,
         join.steam, join.profile, join.capabilities, Connected, None, Empty(), now, NewBudget(now))
  }

  function Admit(s: State, join: Pending, control: PeerId, draw: Draw, now: Instant): State {
    var peers := if join.session in s.rooms then s.rooms[join.session].peers else map[];
    s.(rooms := s.rooms[join.session := Room(peers[draw.connection := NewPeer(join, control, draw, now)], now)],
       index := s.index[draw.connection := join.session],
       controls := s.controls[control := draw.connection])
  }

  ghost function CompleteJoin(s: State, control: PeerId, proof: Proof, draw: Draw, now: Instant)
    : (State, Result<Ready, StateError>)
  {
    var error := JoinError(s, control, proof, now);
    if error.Some? then (s.(pending := s.pending - {control}), Err(error.value))
    else
      var join := s.pending[control];
      var s' := Admit(Vacated(s, control), join, control, draw, now);
      (s', Ok(Ready(draw.connection, draw.resumeKey, join.profile,
                    BroadcastTo(s', join.session, Some(draw.connection)))))
  }

  // ---- Control connection changes ----

  datatype Resumed = Resumed(profile: Profile, udpPathValid: bool, broadcast: Option<Broadcast>)

  function ResumeError(s: State, c: ConnectionId, key: Key, now: Instant): Option<ResumeFailure> {
    if !Has(s, c) then Some(UnknownResume)
    else if PeerOf(s, c).resumeKey != key then Some(InvalidCredential)
    else if PeerOf(s, c).detachedUntil.Some? && now > PeerOf(s, c).detachedUntil.value then Some(Expired)
    else None
  }

  function Resume(s: State, control: PeerId, c: ConnectionId, key: Key, now: Instant)
    : (State, Result<Resumed, ResumeFailure>)
  {
    var error := ResumeError(s, c, key, now);
    if error.Some? then (s, Err(error.value))
    else
      var p := PeerOf(s, c);
      var p' := p.(control := control, presence := Connected, detachedUntil := None, lastSeen := now);
      var s' := PutPeer(s, s.index[c], c, p', now).(controls := s.controls[control := c]);
      (s', Ok(Resumed(p.profile, p.profile == Udp && p.udpAddress.Some?,
                      BroadcastTo(s', s.index[c], Some(c)))))
  }

  function Detach(s: State, control: PeerId, now: Instant): (State, Option<Broadcast>) {
    if control !in s.controls then (s, None)
    else
      var c := s.controls[control];
      var s1 := s.(controls := s.controls - {control});
      if !Has(s, c) || PeerOf(s, c).control != control || PeerOf(s, c).presence == Reconnecting
      then (s1, None)
      else
        var p' := PeerOf(s, c).(presence := Reconnecting, detachedUntil := Some(now + RECOVERY_GRACE));
        var s2 := PutPeer(s1, s.index[c], c, p', s.rooms[s.index[c]].lastSeen);
        (s2, BroadcastTo(s2, s.index[c], Some(c)))
  }

  function Stop(s: State, control: PeerId): (State, Option<Broadcast>) {
    if control !in s.controls then (s, None)
    else RemoveConnection(s.(controls := s.controls - {control}), s.controls[control])
  }

  function BindUdpPath(s: State, c: ConnectionId, pathKey: Key, address: Address, now: Instant)
    : (State, Result<PeerId, StateError>)
  {
    if !Has(s, c) then (s, Err(UnknownConnection))
    else if PeerOf(s, c).profile != Udp then (s, Err(ProfileMismatch))
    else if PeerOf(s, c).pathKey != Some(pathKey) then (s, Err(PathNotValidated))
    else
      var p' := PeerOf(s, c).(udpAddress := Some(address), lastSeen := now);
      (PutPeer(s, s.index[c], c, p', s.rooms[s.index[c]].lastSeen), Ok(p'.control))
  }

  // ---- Routing ----

  function SourceError(sender: Peer, fromSteam: SteamId, source: Source): Option<StateError> {
    if sender.steam != fromSteam then Some(SenderMismatch)
    else match source
      case FromTcp(peer) =>
        if sender.profile == Tcp && peer == sender.control then None else Some(ProfileMismatch)
      case FromUdp(address) =>
        if sender.profile == Tcp then Some(ProfileMismatch)
        else if sender.udpAddress == Some(address) then None else Some(PathNotValidated)
  }

  ghost function TargetDestination(room: Room, toSteam: SteamId, requireProbe: bool): Result<Destination, StateError> {
    if !HoldsSteam(room, toSteam) then Err(TargetNotJoined)
    else
      var target := room.peers[FindSteam(room, toSteam)];
      if requireProbe && !CanProbe(target.capabilities) then Err(ProbeUnsupported)
      else match target.profile
        case Tcp => if target.presence == Connected then Ok(ToTcp(target.control)) else Err(TargetUnavailable)
        case Udp => if target.udpAddress.Some? then Ok(ToUdp(target.udpAddress.value)) else Err(TargetUnavailable)
  }

  datatype Request = Request(
    connection: ConnectionId, frameId: u64, fromSteam: SteamId, toSteam: SteamId,
    source: Source, frameBytes: u64, now: Instant)

  ghost function RouteData(s: State, r: Request): (State, Result<Destination, StateError>) {
    var c := r.connection;
    if !Has(s, c) then (s, Err(UnknownConnection))
    else
      var k, p := s.index[c], PeerOf(s, c);
      var sourceError := SourceError(p, r.fromSteam, r.source);
      if sourceError.Some? then (s, Err(sourceError.value))
      else
        var (frames, decision) := Observe(p.frames, r.frameId);
        if decision.Duplicate? then (s, Err(DuplicateFrame))
        else if decision.TooOld? then (s, Err(FrameTooOld))
        else
          var (budget, allowed) := CheckTraffic(p.budget, s.config, r.frameBytes, r.now);
          var p' := p.(frames := frames, budget := budget);
          if !allowed then (PutPeer(s, k, c, p', s.rooms[k].lastSeen), Err(RateLimited))
          else
            var s' := PutPeer(s, k, c, p'.(lastSeen := r.now), r.now);
            (s', TargetDestination(s'.rooms[k], r.toSteam, false))
  }

  /** Probes carry no frame id; `frameId` is not read. */
  ghost function RouteProbe(s: State, r: Request): (State, Result<Destination, StateError>) {
    var c := r.connection;
    if !Has(s, c) then (s, Err(UnknownConnection))
    else
      var k, p := s.index[c], PeerOf(s, c);
      var sourceError := SourceError(p, r.fromSteam, r.source);
      if sourceError.Some? then (s, Err(sourceError.value))
      else if !CanProbe(p.capabilities) then (s, Err(ProbeUnsupported))
      else
        var (budget, allowed) := CheckTraffic(p.budget, s.config, r.frameBytes, r.now);
        if !allowed then (PutPeer(s, k, c, p.(budget := budget), s.rooms[k].lastSeen), Err(RateLimited))
        else
          var (budget', probeAllowed) := CheckProbe(budget, r.now);
          if !probeAllowed then (PutPeer(s, k, c, p.(budget := budget'), s.rooms[k].lastSeen), Err(ProbeRateLimited))
          else
            var s' := PutPeer(s, k, c, p.(budget := budget', lastSeen := r.now), r.now);
            (s', TargetDestination(s'.rooms[k], r.toSteam, true))
  }

  // ---- Cleanup ----

  predicate ExpiredAt(p: Peer, now: Instant) { p.detachedUntil.Some? && now >= p.detachedUntil.value }

  function ExpiredConnections(s: State, now: Instant): set<ConnectionId> {
    set c | c in s.index && Has(s, c) && ExpiredAt(PeerOf(s, c), now)
  }

  function ControlsOf(s: State, gone: set<ConnectionId>): set<PeerId> {
    set c | c in gone && Has(s, c) :: PeerOf(s, c).control
  }

  /** The rooms without these connections. */
  ghost function Pruned(rooms: map<Key, Room>, gone: set<ConnectionId>): (r: map<Key, Room>)
    ensures r.Keys == rooms.Keys
    ensures forall k :: k in rooms ==> r[k] == Room(rooms[k].peers - gone, rooms[k].lastSeen)
    decreases |rooms|
  {
    if rooms.Keys == {} then map[]
    else
      SomeMember(rooms.Keys);
      var k :| k in rooms.Keys;
      Pruned(rooms - {k}, gone)[k := Room(rooms[k].peers - gone, rooms[k].lastSeen)]
  }

  function FreshPending(pending: map<PeerId, Pending>, now: Instant): map<PeerId, Pending> {
    pending - set p | p in pending && Since(now, pending[p].issuedAt) >= CHALLENGE_LIFETIME
  }

  predicate Abandoned(config: Config, room: Room, now: Instant) {
    room.peers == map[] && Since(now, room.lastSeen) >= config.roomIdle
  }

  function Retained(config: Config, rooms: map<Key, Room>, now: Instant): map<Key, Room> {
    rooms - set k | k in rooms && Abandoned(config, rooms[k], now)
  }

  /** Drops exactly the expired peers, then exactly the rooms that are empty and idle. */
  ghost function Cleanup(s: State, now: Instant): State {
    var gone := ExpiredConnections(s, now);
    s.(pending := FreshPending(s.pending, now),
       rooms := Retained(s.config, Pruned(s.rooms, gone), now),
       index := s.index - gone,
       controls := s.controls - ControlsOf(s, gone))
  }

  /** The broadcast caused by the removal of one connection. */
  datatype Notice = Notice(gone: ConnectionId, recipients: Broadcast)

  /** One broadcast per removed connection whose room still has a connected peer. */
  function CleanupBroadcasts(s: State, gone: set<ConnectionId>): set<Notice> {
    set c | c in gone && Has(s, c) && Recipients(s.rooms[s.index[c]], None) != {}
      :: Notice(c, Recipients(s.rooms[s.index[c]], None))
  }

  // ---- Steps and runs ----

  datatype Event =
    | BeginJoinEvent(control: PeerId, join: Pending)
    | CompleteJoinEvent(control: PeerId, proof: Proof, draw: Draw, now: Instant)
    | ResumeEvent(control: PeerId, connection: ConnectionId, key: Key, now: Instant)
    | DetachEvent(control: PeerId, now: Instant)
    | StopEvent(control: PeerId)
    | BindEvent(connection: ConnectionId, pathKey: Key, address: Address, now: Instant)
    | RouteDataEvent(request: Request)
    | RouteProbeEvent(request: Request)
    | CleanupEvent(now: Instant)

  ghost function Step(s: State, e: Event): State {
    match e
    case BeginJoinEvent(control, join) => BeginJoin(s, control, join).0
    case CompleteJoinEvent(control, proof, draw, now) => CompleteJoin(s, control, proof, draw, now).0
    case ResumeEvent(control, connection, key, now) => Resume(s, control, connection, key, now).0
    case DetachEvent(control, now) => Detach(s, control, now).0
    case StopEvent(control) => Stop(s, control).0
    case BindEvent(connection, pathKey, address, now) => BindUdpPath(s, connection, pathKey, address, now).0
    case RouteDataEvent(request) => RouteData(s, request).0
    case RouteProbeEvent(request) => RouteProbe(s, request).0
    case CleanupEvent(now) => Cleanup(s, now)
  }

  /** The event admits a new connection. */
  ghost predicate Admits(s: State, e: Event) {
    e.CompleteJoinEvent? && JoinError(s, e.control, e.proof, e.now).None?
  }

  /** A drawn connection id is non-zero and not indexed at the moment of the draw. */
  ghost predicate Legal(s: State, e: Event) {
    Admits(s, e) ==> e.draw.connection != 0 && e.draw.connection !in Vacated(s, e.control).index
  }

  ghost function Run(s: State, es: seq<Event>): State
    decreases |es|
  {
    if es == [] then s else Run(Step(s, es[0]), es[1..])
  }

  ghost predicate LegalRun(s: State, es: seq<Event>)
    decreases |es|
  {
    es != [] ==> Legal(s, es[0]) && LegalRun(Step(s, es[0]), es[1..])
  }
}
