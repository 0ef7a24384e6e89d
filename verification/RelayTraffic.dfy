/** Where frames may come from and go to, and what a connection's operations leave of the others. */
module RelayTraffic {
  import opened Prelude
  import opened FrameWindow
  import opened RelayModel
  import opened RelayInvariant
  import opened RelayLife

  // ---- Who may send, and to whom ----

  /** The transport the peer is reached by, and must send from. */
  ghost predicate OwnSource(p: Peer, source: Source) {
    match source
    case FromTcp(peer) => p.profile == Tcp && peer == p.control
    case FromUdp(address) => p.profile == Udp && p.udpAddress == Some(address)
  }

  ghost predicate ReachedAt(p: Peer, destination: Destination) {
    match destination
    case ToTcp(peer) => p.profile == Tcp && p.presence == Connected && peer == p.control
    case ToUdp(address) => p.profile == Udp && p.udpAddress == Some(address)
  }

  /** The result a routed frame or probe gets. */
  ghost function Answer(s: State, e: Event): Result<Destination, StateError>
    requires IsRoute(e)
  {
    if e.RouteDataEvent? then RouteData(s, e.request).1 else RouteProbe(s, e.request).1
  }

  ghost predicate SameTarget(s: State, r: Request, d: ConnectionId)
    requires Has(s, d)
  {
    Has(s, r.connection) && s.index[d] == s.index[r.connection] && PeerOf(s, d).steam == r.toSteam
  }

  lemma SourceIsOwn(p: Peer, fromSteam: SteamId, source: Source)
    requires SourceError(p, fromSteam, source).None?
    ensures p.steam == fromSteam && OwnSource(p, source)
  {
  }

  lemma TargetIsReached(room: Room, toSteam: SteamId, requireProbe: bool) returns (t: ConnectionId)
    requires TargetDestination(room, toSteam, requireProbe).Ok?
    ensures t in room.peers && room.peers[t].steam == toSteam
    ensures ReachedAt(room.peers[t], TargetDestination(room, toSteam, requireProbe).value)
  {
    t := FindSteam(room, toSteam);
    hide FindSteam, HoldsSteam, CanProbe;
  }

  /** A delivered frame passed the test of its source, and its target was looked up in the sender's room. */
  lemma DeliveryIsChecked(s: State, e: Event)
    requires IsRoute(e) && Answer(s, e).Ok?
    ensures var r, s' := e.request, Step(s, e);
            && Has(s, r.connection) && SourceError(PeerOf(s, r.connection), r.fromSteam, r.source).None?
            && s.index[r.connection] in s'.rooms
            && TargetDestination(s'.rooms[s.index[r.connection]], r.toSteam, e.RouteProbeEvent?) == Answer(s, e)
  {
    hide CheckTraffic, CheckProbe, Observe, TargetDestination, SourceError, CanProbe;
  }

  /** The peer a delivered frame reaches is the only one with the target's SteamID64 in the sender's own session, and
      the sender used its own identity and transport: frames never cross sessions. */
  lemma DeliveryStaysInSession(s: State, e: Event) returns (t: ConnectionId)
    requires Valid(s) && IsRoute(e)
    ensures Answer(s, e).Ok? ==>
              && Has(s, e.request.connection) && Has(s, t)
              && s.index[t] == s.index[e.request.connection]
              && PeerOf(s, e.request.connection).steam == e.request.fromSteam
              && OwnSource(PeerOf(s, e.request.connection), e.request.source)
              && PeerOf(s, t).steam == e.request.toSteam && ReachedAt(PeerOf(s, t), Answer(s, e).value)
    ensures Answer(s, e).Ok? ==>
              forall d :: Has(s, d) && SameTarget(s, e.request, d) ==> d == t
  {
    t := 0;
    hide Answer, Step, Valid, SourceError, TargetDestination, OwnSource, ReachedAt;
    if Answer(s, e).Ok? {
      DeliveryIsChecked(s, e);
      var c, s' := e.request.connection, Step(s, e);
      var k, p := s.index[c], PeerOf(s, c);
      SourceIsOwn(p, e.request.fromSteam, e.request.source);
      RoutingTouchesSender(s, e);
      t := TargetIsReached(s'.rooms[k], e.request.toSteam, e.RouteProbeEvent?);
      RoomOf(s, k);
      hide RefusesMore;
      assert t in s.rooms[k].peers && Sender(s.rooms[k].peers[t], s'.rooms[k].peers[t]);
      ReachedStill(s.rooms[k].peers[t], s'.rooms[k].peers[t], Answer(s, e).value);
      UniqueInRoom(s, k, t);
    }
  }

  lemma RoomOf(s: State, k: Key)
    requires Valid(s) && k in s.rooms
    ensures RoomIndexed(s.index, k, s.rooms[k]) && OnePerSteam(s.rooms[k])
  {
    hide RoomIndexed, OnePerSteam;
    assert RoomOk(s.config, s.rooms[k]);
  }

  lemma ReachedStill(p: Peer, p': Peer, destination: Destination)
    requires Sender(p, p') && ReachedAt(p', destination)
    ensures ReachedAt(p, destination)
  {
  }

  lemma UniqueInRoom(s: State, k: Key, t: ConnectionId)
    requires k in s.rooms && RoomIndexed(s.index, k, s.rooms[k]) && OnePerSteam(s.rooms[k]) && t in s.rooms[k].peers
    ensures Has(s, t) && s.index[t] == k && PeerOf(s, t) == s.rooms[k].peers[t]
    ensures forall d :: Has(s, d) && s.index[d] == k && PeerOf(s, d).steam == s.rooms[k].peers[t].steam ==> d == t
  {
  }

  /** What a step may do to a connection it does not end: only its own frames change its budget, only its own path key
      its UDP address, only its own resume key, in time, its control peer, and only a detach sets a deadline. */
  ghost predicate Minds(s: State, e: Event, c: ConnectionId)
    requires Has(s, c) && Has(Step(s, e), c)
  {
    var p, p' := PeerOf(s, c), PeerOf(Step(s, e), c);
    && (p'.budget == p.budget || (IsRoute(e) && e.request.connection == c))
    && (p'.udpAddress == p.udpAddress
        || (e.BindEvent? && e.connection == c && Some(e.pathKey) == p.pathKey && p'.udpAddress == Some(e.address)))
    && (p'.control == p.control
        || (e.ResumeEvent? && e.connection == c && e.key == p.resumeKey && p'.control == e.control
            && (p.detachedUntil.Some? ==> e.now <= p.detachedUntil.value)))
    && (|| p'.detachedUntil == p.detachedUntil
        || (e.ResumeEvent? && p'.detachedUntil == None)
        || (e.DetachEvent? && p'.detachedUntil == Some(e.now + RECOVERY_GRACE)))
  }

  lemma StepMinds(s: State, e: Event, c: ConnectionId)
    requires Valid(s) && Legal(s, e)
    requires c in s.index && c in Step(s, e).index && !Issues(s, e, c)
    ensures Has(s, c) && Has(Step(s, e), c) && Minds(s, e, c)
  {
    StepContinues(s, e, c);
    hide Valid, Legal, Step, Has, PeerOf, Continues, Minds;
    match e {
      case BeginJoinEvent(_, _) => PendingMinds(s, e, c);
      case CompleteJoinEvent(_, _, _, _) =>
        if Admits(s, e) { AdmissionContinues(s, e, c); SameMinds(s, e, c); } else { PendingMinds(s, e, c); }
      case ResumeEvent(_, _, _, _) => ResumeMinds(s, e, c);
      case DetachEvent(_, _) => DetachMinds(s, e, c);
      case StopEvent(_) => StopContinues(s, e, c); SameMinds(s, e, c);
      case BindEvent(_, _, _, _) => BindMinds(s, e, c);
      case RouteDataEvent(_) => RouteMinds(s, e, c);
      case RouteProbeEvent(_) => RouteMinds(s, e, c);
      case CleanupEvent(_) => CleanupContinues(s, e, c); SameMinds(s, e, c);
    }
  }

  lemma SameMinds(s: State, e: Event, c: ConnectionId)
    requires Has(s, c) && Has(Step(s, e), c) && PeerOf(Step(s, e), c) == PeerOf(s, c)
    ensures Minds(s, e, c)
  {
    hide Step, Has, PeerOf;
  }

  lemma PendingMinds(s: State, e: Event, c: ConnectionId)
    requires Has(s, c) && Has(Step(s, e), c) && (e.BeginJoinEvent? || (e.CompleteJoinEvent? && !Admits(s, e)))
    ensures Minds(s, e, c)
  {
    hide BroadcastTo, Admit, Vacated, CapacityError;
    assert PeerOf(Step(s, e), c) == PeerOf(s, c);
    SameMinds(s, e, c);
  }

  lemma ResumeMinds(s: State, e: Event, c: ConnectionId)
    requires Has(s, c) && Has(Step(s, e), c) && e.ResumeEvent?
    ensures Minds(s, e, c)
  {
    var d, s' := e.connection, Step(s, e);
    if ResumeError(s, d, e.key, e.now).None? {
      var p := PeerOf(s, d).(control := e.control, presence := Connected, detachedUntil := None, lastSeen := e.now);
      PutPeerFacts(s, d, p, e.now, c);
      ResumePuts(s, e);
      hide Step, PutPeer;
    }
  }

  lemma ResumePuts(s: State, e: Event)
    requires e.ResumeEvent? && ResumeError(s, e.connection, e.key, e.now).None?
    ensures var d, p := e.connection, PeerOf(s, e.connection);
            var p' := p.(control := e.control, presence := Connected, detachedUntil := None, lastSeen := e.now);
            Step(s, e) == PutPeer(s, s.index[d], d, p', e.now).(controls := s.controls[e.control := d])
  {
    hide BroadcastTo;
  }

  lemma DetachMinds(s: State, e: Event, c: ConnectionId)
    requires Has(s, c) && Has(Step(s, e), c) && e.DetachEvent?
    ensures Minds(s, e, c)
  {
    hide BroadcastTo;
    var s' := Step(s, e);
    if s'.rooms != s.rooms {
      var d := s.controls[e.control];
      var k := s.index[d];
      PutPeerFacts(s, d, s'.rooms[k].peers[d], s.rooms[k].lastSeen, c);
      assert s'.rooms == PutPeer(s, k, d, s'.rooms[k].peers[d], s.rooms[k].lastSeen).rooms && s'.index == s.index;
    }
  }

  lemma BindMinds(s: State, e: Event, c: ConnectionId)
    requires Has(s, c) && Has(Step(s, e), c) && e.BindEvent?
    ensures Minds(s, e, c)
  {
    var d, s' := e.connection, Step(s, e);
    if s' != s {
      var p := PeerOf(s, d).(udpAddress := Some(e.address), lastSeen := e.now);
      PutPeerFacts(s, d, p, s.rooms[s.index[d]].lastSeen, c);
      assert s' == PutPeer(s, s.index[d], d, p, s.rooms[s.index[d]].lastSeen);
      hide Step, PutPeer;
    }
  }

  lemma RouteMinds(s: State, e: Event, c: ConnectionId)
    requires Has(s, c) && Has(Step(s, e), c) && IsRoute(e)
    ensures Minds(s, e, c)
  {
    var d, s' := e.request.connection, Step(s, e);
    RoutingTouchesSender(s, e);
    hide Step, Observe;
    if s' == s {
      SameMinds(s, e, c);
    } else {
      PutPeerFacts(s, d, PeerOf(s', d), s'.rooms[s.index[d]].lastSeen, c);
      hide PutPeer;
    }
  }
}
