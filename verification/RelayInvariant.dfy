/** What every step of the relay keeps: the two indexes agree, the limits hold, and a peer is
    waiting for recovery exactly when it has a deadline. */
module RelayInvariant {
  import opened Prelude
  import opened FrameWindow
  import opened RelayModel

  ghost predicate OnePerSteam(room: Room) {
    forall c, d :: c in room.peers && d in room.peers && room.peers[c].steam == room.peers[d].steam ==> c == d
  }

  ghost predicate PeerOk(c: ConnectionId, p: Peer) {
    && p.connection == c
    && (p.presence == Reconnecting <==> p.detachedUntil.Some?)
    && (p.profile == Udp <==> p.pathKey.Some?)
  }

  ghost predicate RoomOk(config: Config, room: Room) {
    && |room.peers| <= config.maxPeersPerRoom
    && OnePerSteam(room)
    && forall c :: c in room.peers ==> PeerOk(c, room.peers[c])
  }

  /** A connection is indexed under a session exactly when that session's room holds it. */
  ghost predicate RoomIndexed(index: map<ConnectionId, Key>, k: Key, room: Room) {
    forall c :: c in room.peers <==> c in index && index[c] == k
  }

  ghost predicate Indexed(rooms: map<Key, Room>, index: map<ConnectionId, Key>) {
    && (forall k :: k in rooms ==> RoomIndexed(index, k, rooms[k]))
    && (forall c :: c in index ==> c != 0 && index[c] in rooms)
  }

  ghost predicate RoomsOk(config: Config, rooms: map<Key, Room>) {
    && 0 < config.maxPeersPerRoom
    && |rooms| <= config.maxRooms
    && forall k :: k in rooms ==> RoomOk(config, rooms[k])
  }

  ghost predicate Valid(s: State) { Indexed(s.rooms, s.index) && RoomsOk(s.config, s.rooms) }

  /** The configuration file is refused when a room could hold nobody. */
  lemma InitialIsValid(config: Config)
    requires 0 < config.maxPeersPerRoom
    ensures Valid(Initial(config))
  {
  }

  // ---- Rooms on their own ----

  lemma RoomPut(config: Config, room: Room, c: ConnectionId, p: Peer, lastSeen: Instant)
    requires RoomOk(config, room) && c in room.peers
    requires PeerOk(c, p) && p.steam == room.peers[c].steam
    ensures RoomOk(config, Room(room.peers[c := p], lastSeen))
  {
    var room' := Room(room.peers[c := p], lastSeen);
    assert room'.peers.Keys == room.peers.Keys;
    assert forall d :: d in room.peers ==> room'.peers[d].steam == room.peers[d].steam;
  }

  lemma FewerMembers(small: set<int>, large: set<int>)
    requires small <= large
    ensures |small| <= |large|
  {
    assert large == small + (large - small);
  }

  lemma RoomRestrict(config: Config, room: Room, peers: map<ConnectionId, Peer>)
    requires RoomOk(config, room)
    requires forall c :: c in peers ==> c in room.peers
    requires forall c :: c in peers ==> peers[c] == room.peers[c]
    ensures RoomOk(config, room.(peers := peers))
    ensures |peers| <= |room.peers|
  {
    forall c | c in peers.Keys ensures c in room.peers.Keys {}
    FewerMembers(peers.Keys, room.peers.Keys);
  }

  lemma RoomInsert(config: Config, room: Room, c: ConnectionId, p: Peer, lastSeen: Instant)
    requires RoomOk(config, room) && c !in room.peers && |room.peers| < config.maxPeersPerRoom
    requires PeerOk(c, p) && !HoldsSteam(room, p.steam)
    ensures RoomOk(config, Room(room.peers[c := p], lastSeen))
  {
    var room' := Room(room.peers[c := p], lastSeen);
    assert room'.peers.Keys == room.peers.Keys + {c};
  }

  // ---- The state with one room replaced ----

  lemma ReplaceRoom(config: Config, rooms: map<Key, Room>, k: Key, room: Room)
    requires RoomsOk(config, rooms) && RoomOk(config, room)
    requires k in rooms || |rooms| < config.maxRooms
    ensures RoomsOk(config, rooms[k := room])
  {
    assert rooms[k := room].Keys == rooms.Keys + {k};
  }

  lemma HasEveryIndexed(s: State, c: ConnectionId)
    requires Valid(s)
    ensures c in s.index <==> Has(s, c)
    ensures c in s.index ==> PeerOk(c, PeerOf(s, c))
  {
    if c in s.index {
      assert RoomIndexed(s.index, s.index[c], s.rooms[s.index[c]]);
      assert RoomOk(s.config, s.rooms[s.index[c]]);
    }
  }

  lemma PutPeerKeepsValid(s: State, c: ConnectionId, p: Peer, lastSeen: Instant)
    requires Valid(s) && Has(s, c)
    requires PeerOk(c, p) && p.steam == PeerOf(s, c).steam
    ensures Valid(PutPeer(s, s.index[c], c, p, lastSeen))
  {
    var k := s.index[c];
    RoomPut(s.config, s.rooms[k], c, p, lastSeen);
    ReplaceRoom(s.config, s.rooms, k, Room(s.rooms[k].peers[c := p], lastSeen));
    var s' := PutPeer(s, k, c, p, lastSeen);
    forall r | r in s'.rooms
      ensures RoomIndexed(s'.index, r, s'.rooms[r])
    {
      assert RoomIndexed(s.index, r, s.rooms[r]);
    }
  }

  lemma RemoveConnectionKeepsValid(s: State, c: ConnectionId)
    requires Valid(s)
    ensures var s' := RemoveConnection(s, c).0;
            && Valid(s') && s'.rooms.Keys == s.rooms.Keys && s'.index == s.index - {c}
  {
    var s' := RemoveConnection(s, c).0;
    if c in s.index {
      HasEveryIndexed(s, c);
      var k := s.index[c];
      RoomRestrict(s.config, s.rooms[k], s.rooms[k].peers - {c});
      ReplaceRoom(s.config, s.rooms, k, s'.rooms[k]);
      forall r | r in s'.rooms
        ensures RoomIndexed(s'.index, r, s'.rooms[r])
      {
        assert RoomIndexed(s.index, r, s.rooms[r]);
      }
    } else {
      assert s.index - {c} == s.index;
    }
  }

  lemma RemoveDuplicateKeepsValid(s: State, session: Key, steam: SteamId)
    requires Valid(s)
    ensures var s' := RemoveDuplicate(s, session, steam);
            && Valid(s') && s'.rooms.Keys == s.rooms.Keys && s'.config == s.config
            && (session in s.rooms ==>
                  && !HoldsSteam(s'.rooms[session], steam)
                  && |s'.rooms[session].peers| ==
                     |s.rooms[session].peers| - (if HoldsSteam(s.rooms[session], steam) then 1 else 0))
  {
    if session in s.rooms && HoldsSteam(s.rooms[session], steam) {
      var room := s.rooms[session];
      var c := FindSteam(room, steam);
      assert RoomIndexed(s.index, session, room) && RoomOk(s.config, room);
      assert PeerOk(c, room.peers[c]);
      RemoveConnectionKeepsValid(s, c);
      var s' := RemoveDuplicate(s, session, steam);
      assert s'.rooms[session].peers == room.peers - {c};
      assert s'.rooms[session].peers.Keys == room.peers.Keys - {c};
    }
  }

  lemma AdmitKeepsValid(s: State, join: Pending, control: PeerId, draw: Draw, now: Instant)
    requires Valid(s)
    requires draw.connection != 0 && draw.connection !in s.index
    requires join.session in s.rooms ==>
               && !HoldsSteam(s.rooms[join.session], join.steam)
               && |s.rooms[join.session].peers| < s.config.maxPeersPerRoom
    requires join.session !in s.rooms ==> |s.rooms| < s.config.maxRooms
    ensures Valid(Admit(s, join, control, draw, now))
  {
    var c, k := draw.connection, join.session;
    var s' := Admit(s, join, control, draw, now);
    var room := if k in s.rooms then s.rooms[k] else Room(map[], now);
    if k in s.rooms { assert RoomIndexed(s.index, k, room) && RoomOk(s.config, room); }
    assert RoomOk(s.config, room) && c !in room.peers && |room.peers| < s.config.maxPeersPerRoom;
    hide RoomIndexed;
    RoomInsert(s.config, room, c, NewPeer(join, control, draw, now), now);
    hide RoomOk, HoldsSteam, NewPeer;
    ReplaceRoom(s.config, s.rooms, k, s'.rooms[k]);
    forall r | r in s'.rooms
      ensures RoomIndexed(s'.index, r, s'.rooms[r])
    {
      AdmitIndexes(s, join, control, draw, now, r);
    }
    hide RoomIndexed, RoomsOk;
  }

  lemma AdmitIndexes(s: State, join: Pending, control: PeerId, draw: Draw, now: Instant, r: Key)
    requires Indexed(s.rooms, s.index) && draw.connection !in s.index
    requires r in Admit(s, join, control, draw, now).rooms
    ensures var s' := Admit(s, join, control, draw, now); RoomIndexed(s'.index, r, s'.rooms[r])
  {
    hide NewPeer;
    if r in s.rooms { assert RoomIndexed(s.index, r, s.rooms[r]); }
  }

  lemma CleanupRoom(s: State, now: Instant, r: Key)
    requires Valid(s) && r in Cleanup(s, now).rooms
    ensures RoomOk(s.config, Cleanup(s, now).rooms[r])
    ensures RoomIndexed(Cleanup(s, now).index, r, Cleanup(s, now).rooms[r])
  {
    assert RoomIndexed(s.index, r, s.rooms[r]) && RoomOk(s.config, s.rooms[r]);
    hide Pruned;
    RoomRestrict(s.config, s.rooms[r], s.rooms[r].peers - ExpiredConnections(s, now));
  }

  lemma CleanupKeepsLimits(s: State, now: Instant)
    ensures Cleanup(s, now).config == s.config && |Cleanup(s, now).rooms| <= |s.rooms|
  {
    hide Pruned, ExpiredConnections;
    var s' := Cleanup(s, now);
    assert s'.rooms.Keys <= s.rooms.Keys;
    FewerMembers(s'.rooms.Keys, s.rooms.Keys);
  }

  lemma CleanupKeepsValid(s: State, now: Instant)
    requires Valid(s)
    ensures Valid(Cleanup(s, now))
  {
    var s' := Cleanup(s, now);
    hide Cleanup, RoomIndexed, RoomOk;
    CleanupKeepsLimits(s, now);
    forall r | r in s'.rooms
      ensures RoomIndexed(s'.index, r, s'.rooms[r]) && RoomOk(s'.config, s'.rooms[r])
    {
      CleanupRoom(s, now, r);
    }
    forall c | c in s'.index
      ensures c != 0 && s'.index[c] in s'.rooms
    {
      CleanupIndex(s, now, c);
    }
  }

  lemma CleanupIndex(s: State, now: Instant, c: ConnectionId)
    requires Valid(s) && c in Cleanup(s, now).index
    ensures c != 0 && Cleanup(s, now).index[c] in Cleanup(s, now).rooms
  {
    HasEveryIndexed(s, c);
    assert c != 0;
    hide Valid, Pruned;
    assert c in s.rooms[s.index[c]].peers - ExpiredConnections(s, now);
  }

  lemma CleanupOfPeer(s: State, now: Instant, c: ConnectionId)
    requires Valid(s)
    ensures var s' := Cleanup(s, now);
            && (Has(s', c) <==> Has(s, c) && !ExpiredAt(PeerOf(s, c), now))
            && (Has(s', c) ==> s'.index[c] == s.index[c] && PeerOf(s', c) == PeerOf(s, c))
  {
    HasEveryIndexed(s, c);
    hide Valid, Pruned;
    if Has(s, c) && !ExpiredAt(PeerOf(s, c), now) {
      assert c in s.rooms[s.index[c]].peers - ExpiredConnections(s, now);
    }
  }

  ghost predicate Exhausted(room: Room, now: Instant) {
    forall c :: c in room.peers ==> ExpiredAt(room.peers[c], now)
  }

  lemma CleanupOfRoom(s: State, now: Instant, k: Key)
    requires Valid(s) && k in s.rooms
    ensures s.rooms[k].peers - ExpiredConnections(s, now) == map[] <==> Exhausted(s.rooms[k], now)
  {
    var room := s.rooms[k];
    var survivors := room.peers - ExpiredConnections(s, now);
    assert RoomIndexed(s.index, k, room);
    hide Valid;
    assert forall c :: c in room.peers ==> Has(s, c) && PeerOf(s, c) == room.peers[c];
    if survivors == map[] {
      forall c | c in room.peers
        ensures ExpiredAt(room.peers[c], now)
      {
        assert c !in survivors;
      }
    } else {
      SomeMember(survivors.Keys);
      var c :| c in survivors;
      assert !ExpiredAt(room.peers[c], now);
    }
  }

  /** Cleanup removes exactly the peers whose deadline has come and then exactly the rooms left
      empty past the idle limit; every other peer is untouched. */
  lemma CleanupIsExact(s: State, now: Instant)
    requires Valid(s)
    ensures var s' := Cleanup(s, now);
            && (forall c :: Has(s', c) <==> Has(s, c) && !ExpiredAt(PeerOf(s, c), now))
            && (forall c :: Has(s', c) ==> s'.index[c] == s.index[c] && PeerOf(s', c) == PeerOf(s, c))
            && (forall k :: k in s'.rooms <==>
                  k in s.rooms
                  && !(Exhausted(s.rooms[k], now) && Since(now, s.rooms[k].lastSeen) >= s.config.roomIdle))
  {
    forall c { CleanupOfPeer(s, now, c); }
    hide Pruned, ExpiredConnections, Exhausted;
    forall k | k in s.rooms { CleanupOfRoom(s, now, k); }
  }

  // ---- Every step, every run ----

  lemma CompleteJoinKeepsValid(s: State, e: Event)
    requires Valid(s) && Legal(s, e) && Admits(s, e)
    ensures Valid(Step(s, e))
  {
    var join := s.pending[e.control];
    var s0 := s.(pending := s.pending - {e.control});
    RemoveDuplicateKeepsValid(s0, join.session, join.steam);
    if join.session in s.rooms {
      assert RoomOk(s.config, s.rooms[join.session]);
      assert HoldsSteam(s.rooms[join.session], join.steam) ==>
          FindSteam(s.rooms[join.session], join.steam) in s.rooms[join.session].peers;
    }
    AdmitKeepsValid(Vacated(s, e.control), join, e.control, e.draw, e.now);
  }

  lemma StepKeepsValid(s: State, e: Event)
    requires Valid(s) && Legal(s, e)
    ensures Valid(Step(s, e)) && Step(s, e).config == s.config
  {
    hide Valid, Legal, BeginJoin, CompleteJoin, Resume, Detach, Stop, BindUdpPath, RouteData, RouteProbe, Cleanup;
    match e {
      case BeginJoinEvent(control, join) => BeginJoinKeepsValid(s, control, join);
      case CompleteJoinEvent(control, proof, draw, now) => JoinKeepsValid(s, control, proof, draw, now);
      case ResumeEvent(control, c, key, now) => ResumeKeepsValid(s, control, c, key, now);
      case DetachEvent(control, now) => DetachKeepsValid(s, control, now);
      case StopEvent(control) => StopKeepsValid(s, control);
      case BindEvent(c, pathKey, address, now) => BindKeepsValid(s, c, pathKey, address, now);
      case RouteDataEvent(r) => RouteDataKeepsValid(s, r);
      case RouteProbeEvent(r) => RouteProbeKeepsValid(s, r);
      case CleanupEvent(now) => CleanupKeepsLimits(s, now); CleanupKeepsValid(s, now);
    }
  }

  lemma BeginJoinKeepsValid(s: State, control: PeerId, join: Pending)
    requires Valid(s)
    ensures var s' := BeginJoin(s, control, join).0; Valid(s') && s'.config == s.config
  {
    hide Indexed, RoomsOk;
  }

  lemma ResumeKeepsValid(s: State, control: PeerId, c: ConnectionId, key: Key, now: Instant)
    requires Valid(s)
    ensures var s' := Resume(s, control, c, key, now).0; Valid(s') && s'.config == s.config
  {
    HasEveryIndexed(s, c);
    hide BroadcastTo, Indexed, RoomsOk;
    var s' := Resume(s, control, c, key, now).0;
    if s' != s { PutPeerKeepsValid(s, c, s'.rooms[s.index[c]].peers[c], now); }
  }

  lemma DetachKeepsValid(s: State, control: PeerId, now: Instant)
    requires Valid(s)
    ensures var s' := Detach(s, control, now).0; Valid(s') && s'.config == s.config
  {
    hide BroadcastTo, Indexed, RoomsOk;
    var s' := Detach(s, control, now).0;
    if s'.rooms != s.rooms {
      var c := s.controls[control];
      HasEveryIndexed(s, c);
      PutPeerKeepsValid(s, c, s'.rooms[s.index[c]].peers[c], s.rooms[s.index[c]].lastSeen);
    }
  }

  lemma StopKeepsValid(s: State, control: PeerId)
    requires Valid(s)
    ensures var s' := Stop(s, control).0; Valid(s') && s'.config == s.config
  {
    hide BroadcastTo, Indexed, RoomsOk;
    if control in s.controls {
      RemoveConnectionKeepsValid(s.(controls := s.controls - {control}), s.controls[control]);
    }
  }

  lemma BindKeepsValid(s: State, c: ConnectionId, pathKey: Key, address: Address, now: Instant)
    requires Valid(s)
    ensures var s' := BindUdpPath(s, c, pathKey, address, now).0; Valid(s') && s'.config == s.config
  {
    HasEveryIndexed(s, c);
    hide Indexed, RoomsOk;
    var s' := BindUdpPath(s, c, pathKey, address, now).0;
    if s' != s {
      PutPeerKeepsValid(s, c, s'.rooms[s.index[c]].peers[c], s'.rooms[s.index[c]].lastSeen);
    }
  }

  lemma JoinKeepsValid(s: State, control: PeerId, proof: Proof, draw: Draw, now: Instant)
    requires Valid(s) && Legal(s, CompleteJoinEvent(control, proof, draw, now))
    ensures var s' := CompleteJoin(s, control, proof, draw, now).0; Valid(s') && s'.config == s.config
  {
    hide BroadcastTo, Indexed, RoomsOk;
    var e := CompleteJoinEvent(control, proof, draw, now);
    if Admits(s, e) { CompleteJoinKeepsValid(s, e); }
  }

  /** The sender's window, budget and last contact are not part of the invariant. */
  lemma SenderPutKeepsValid(s: State, c: ConnectionId, p: Peer, lastSeen: Instant)
    requires Valid(s) && Has(s, c)
    requires p == PeerOf(s, c).(frames := p.frames, budget := p.budget, lastSeen := p.lastSeen)
    ensures Valid(PutPeer(s, s.index[c], c, p, lastSeen))
  {
    HasEveryIndexed(s, c);
    hide Valid;
    PutPeerKeepsValid(s, c, p, lastSeen);
  }

  lemma RouteDataKeepsValid(s: State, r: Request)
    requires Valid(s)
    ensures Valid(RouteData(s, r).0) && RouteData(s, r).0.config == s.config
  {
    hide Valid, CheckTraffic, Observe, TargetDestination, SourceError;
    var c, s' := r.connection, RouteData(s, r).0;
    if s' != s { SenderPutKeepsValid(s, c, s'.rooms[s.index[c]].peers[c], s'.rooms[s.index[c]].lastSeen); }
  }

  lemma RouteProbeKeepsValid(s: State, r: Request)
    requires Valid(s)
    ensures Valid(RouteProbe(s, r).0) && RouteProbe(s, r).0.config == s.config
  {
    hide Valid, CheckTraffic, CheckProbe, TargetDestination, SourceError;
    var c, s' := r.connection, RouteProbe(s, r).0;
    if s' != s { SenderPutKeepsValid(s, c, s'.rooms[s.index[c]].peers[c], s'.rooms[s.index[c]].lastSeen); }
  }

  /** Both indexes agree and every limit holds in every state the relay can reach. */
  lemma {:induction false} RunKeepsValid(s: State, es: seq<Event>)
    requires Valid(s) && LegalRun(s, es)
    ensures Valid(Run(s, es)) && Run(s, es).config == s.config
    decreases |es|
  {
    if es != [] {
      StepKeepsValid(s, es[0]);
      RunKeepsValid(Step(s, es[0]), es[1..]);
    }
  }

  /** The same for a relay started empty, spelled out: however many joins were challenged against the
      last slot, no limit is exceeded, and every connection is in exactly one room. */
  lemma EveryReachableState(config: Config, es: seq<Event>)
    requires 0 < config.maxPeersPerRoom && LegalRun(Initial(config), es)
    ensures var s := Run(Initial(config), es);
            && |s.rooms| <= config.maxRooms
            && (forall k :: k in s.rooms ==> |s.rooms[k].peers| <= config.maxPeersPerRoom && OnePerSteam(s.rooms[k]))
            && (forall c, k :: c in s.index && s.index[c] == k <==> k in s.rooms && c in s.rooms[k].peers)
            && (forall c :: Has(s, c) ==> c != 0 && PeerOf(s, c).connection == c)
            && (forall c :: Has(s, c) ==> (PeerOf(s, c).presence == Reconnecting <==> PeerOf(s, c).detachedUntil.Some?))
  {
    InitialIsValid(config);
    RunKeepsValid(Initial(config), es);
    var s := Run(Initial(config), es);
    forall c { HasEveryIndexed(s, c); }
    forall k | k in s.rooms
      ensures RoomOk(config, s.rooms[k]) && RoomIndexed(s.index, k, s.rooms[k])
    {
    }
  }
}
