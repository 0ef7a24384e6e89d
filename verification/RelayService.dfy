/** The relay state as the object the server locks: each method updates the maps in place and is
    proved to do what the corresponding function of `RelayModel` says. */
module RelayService {
  import opened Prelude
  import opened FrameWindow
  import opened RelayModel
  import opened RelayInvariant

  // ---- Removing several connections one by one ----

  ghost function Without(s: State, gone: set<ConnectionId>): State {
    s.(rooms := Pruned(s.rooms, gone),
       index := s.index - gone,
       controls := s.controls - ControlsOf(s, gone))
  }

  lemma WithoutNone(s: State)
    ensures Without(s, {}) == s && CleanupBroadcasts(s, {}) == {}
  {
    forall k | k in s.rooms
      ensures s.rooms[k].peers - {} == s.rooms[k].peers
    {
    }
  }

  lemma WithoutKeepsValid(s: State, gone: set<ConnectionId>)
    requires Valid(s)
    ensures Valid(Without(s, gone))
  {
    var s' := Without(s, gone);
    assert s'.rooms.Keys == s.rooms.Keys;
    forall k | k in s'.rooms
      ensures RoomIndexed(s'.index, k, s'.rooms[k]) && RoomOk(s'.config, s'.rooms[k])
    {
      assert RoomIndexed(s.index, k, s.rooms[k]) && RoomOk(s.config, s.rooms[k]);
      RoomRestrict(s.config, s.rooms[k], s.rooms[k].peers - gone);
    }
  }

  lemma WithoutOneMoreRoom(s: State, gone: set<ConnectionId>, c: ConnectionId, k: Key)
    requires Valid(s) && Has(s, c) && c !in gone && k in s.rooms
    ensures var peers := s.rooms[k].peers;
            peers - (gone + {c}) == if k == s.index[c] then peers - gone - {c} else peers - gone
  {
    assert RoomIndexed(s.index, k, s.rooms[k]);
    hide Valid;
  }

  lemma PrunedOnceMore(s: State, gone: set<ConnectionId>, c: ConnectionId)
    requires Valid(s) && Has(s, c) && c !in gone
    ensures var k, rooms := s.index[c], Pruned(s.rooms, gone);
            Pruned(s.rooms, gone + {c}) == rooms[k := Room(rooms[k].peers - {c}, rooms[k].lastSeen)]
  {
    hide Pruned, Valid;
    forall k | k in s.rooms { WithoutOneMoreRoom(s, gone, c, k); }
  }

  lemma WithoutKeepsOthers(s: State, gone: set<ConnectionId>, c: ConnectionId)
    requires Has(s, c) && c !in gone
    ensures var s' := Without(s, gone);
            Has(s', c) && PeerOf(s', c) == PeerOf(s, c) && s'.index[c] == s.index[c]
  {
    hide Pruned, ControlsOf;
  }

  lemma WithoutOneMore(s: State, gone: set<ConnectionId>, c: ConnectionId)
    requires Valid(s) && c in s.index && c !in gone
    ensures RemoveConnection(Without(s, gone), c).0 == Without(s, gone + {c})
    ensures RemoveConnection(Without(s, gone), c).1 == BroadcastTo(Without(s, gone + {c}), s.index[c], None)
  {
    HasEveryIndexed(s, c);
    hide Pruned, BroadcastTo, Valid;
    PrunedOnceMore(s, gone, c);
    WithoutKeepsOthers(s, gone, c);
    ControlsOneMore(s, gone, c);
    hide ControlsOf;
    SubtractTwice(s.index, gone, {c});
    SubtractTwice(s.controls, ControlsOf(s, gone), {PeerOf(s, c).control});
    var s0 := Without(s, gone);
    assert RemoveConnection(s0, c).0 == Without(s, gone + {c});
  }

  lemma ControlsOneMore(s: State, gone: set<ConnectionId>, c: ConnectionId)
    requires Has(s, c)
    ensures ControlsOf(s, gone + {c}) == ControlsOf(s, gone) + {PeerOf(s, c).control}
  {
  }

  lemma SubtractTwice(m: map<int, int>, a: set<int>, b: set<int>)
    ensures m - a - b == m - (a + b)
  {
  }

  ghost predicate AllExpired(s: State, gone: set<ConnectionId>, now: Instant) {
    forall c :: c in gone ==> Has(s, c) && ExpiredAt(PeerOf(s, c), now)
  }

  lemma ExpiredAreNoRecipients(s: State, gone: set<ConnectionId>, now: Instant, k: Key)
    requires Valid(s) && k in s.rooms && AllExpired(s, gone, now)
    ensures Recipients(Without(s, gone).rooms[k], None) == Recipients(s.rooms[k], None)
  {
    var room := s.rooms[k];
    assert RoomIndexed(s.index, k, room) && RoomOk(s.config, room);
    forall c | c in room.peers && room.peers[c].presence == Connected
      ensures c !in gone
    {
      assert PeerOk(c, room.peers[c]);
    }
    hide Valid, Pruned, AllExpired;
    RecipientsIgnore(room, gone);
  }

  lemma RecipientsIgnore(room: Room, gone: set<ConnectionId>)
    requires forall c :: c in room.peers && room.peers[c].presence == Connected ==> c !in gone
    ensures Recipients(Room(room.peers - gone, room.lastSeen), None) == Recipients(room, None)
  {
    var room' := Room(room.peers - gone, room.lastSeen);
    forall r ensures r in Recipients(room', None) <==> r in Recipients(room, None) {
      if r in Recipients(room, None) { assert r.connection in room'.peers; }
    }
  }

  lemma NoticesOneMore(s: State, gone: set<ConnectionId>, c: ConnectionId)
    requires Has(s, c)
    ensures var recipients := Recipients(s.rooms[s.index[c]], None);
            CleanupBroadcasts(s, gone + {c}) ==
            CleanupBroadcasts(s, gone) + if recipients != {} then {Notice(c, recipients)} else {}
  {
    hide Recipients;
  }

  lemma RemoveOneMore(s: State, gone: set<ConnectionId>, c: ConnectionId, now: Instant)
    requires Valid(s) && c !in gone && AllExpired(s, gone + {c}, now)
    ensures var (s', b) := RemoveConnection(Without(s, gone), c);
            && s' == Without(s, gone + {c})
            && CleanupBroadcasts(s, gone + {c}) ==
               CleanupBroadcasts(s, gone) + if b.Some? then {Notice(c, b.value)} else {}
  {
    assert c in gone + {c};
    WithoutOneMore(s, gone, c);
    ExpiredAreNoRecipients(s, gone + {c}, now, s.index[c]);
    NoticesOneMore(s, gone, c);
    hide Valid, CleanupBroadcasts, Recipients, RemoveConnection, Pruned, ControlsOf, ExpiredAt;
  }

  /** Expiry reads the rooms and the index alone. */
  lemma PendingDoesNotMatter(s: State, pending: map<PeerId, Pending>, now: Instant)
    ensures var s' := s.(pending := pending);
            && ExpiredConnections(s', now) == ExpiredConnections(s, now)
            && forall gone :: ControlsOf(s', gone) == ControlsOf(s, gone)
                              && CleanupBroadcasts(s', gone) == CleanupBroadcasts(s, gone)
  {
    var s' := s.(pending := pending);
    assert forall c :: Has(s', c) == Has(s, c);
    hide Recipients, ExpiredAt;
  }

  /** The invariant does not speak of outstanding challenges. */
  lemma PendingKeepsValid(s: State, pending: map<PeerId, Pending>)
    requires Valid(s)
    ensures Valid(s.(pending := pending))
  {
  }

  lemma CapacityIgnoresPending(s: State, pending: map<PeerId, Pending>, session: Key, steam: SteamId)
    ensures CapacityError(s.(pending := pending), session, steam) == CapacityError(s, session, steam)
  {
  }

  lemma RoomsAreOk(s: State, k: Key)
    requires Valid(s) && k in s.rooms
    ensures RoomOk(s.config, s.rooms[k])
  {
  }

  class RelayState {
    const config: Config
    var pending: map<PeerId, Pending>
    var rooms: map<Key, Room>
    var index: map<ConnectionId, Key>
    var controls: map<PeerId, ConnectionId>

    function Value(): State reads this { State(config, pending, rooms, index, controls) }

    ghost predicate Consistent() reads this { Valid(Value()) }

    constructor (config: Config)
      requires 0 < config.maxPeersPerRoom
      ensures Consistent() && Value() == Initial(config)
    {
      this.config := config;
      pending, rooms, index, controls := map[], map[], map[], map[];
    }

    method FindPeer(room: Room, steam: SteamId) returns (found: Option<ConnectionId>)
      ensures found.None? <==> !HoldsSteam(room, steam)
      ensures found.Some? ==> found.value in room.peers && room.peers[found.value].steam == steam
    {
      var rest := room.peers.Keys;
      while rest != {}
        invariant forall c :: c in room.peers && c !in rest ==> room.peers[c].steam != steam
        invariant rest <= room.peers.Keys
        decreases rest
      {
        SomeMember(rest);
        var c :| c in rest;
        if room.peers[c].steam == steam { return Some(c); }
        rest := rest - {c};
      }
      found := None;
    }

    method ValidateRoomCapacity(session: Key, steam: SteamId) returns (error: Option<StateError>)
      ensures error == CapacityError(Value(), session, steam)
    {
      if session in rooms {
        var already := FindPeer(rooms[session], steam);
        if already.None? && |rooms[session].peers| >= config.maxPeersPerRoom { return Some(RoomFull); }
      } else if |rooms| >= config.maxRooms {
        return Some(RelayFull);
      }
      error := None;
    }

    method BeginJoin(control: PeerId, join: Pending) returns (error: Option<StateError>)
      requires Consistent()
      modifies this
      ensures Consistent() && (Value(), error) == RelayModel.BeginJoin(old(Value()), control, join)
    {
      error := ValidateRoomCapacity(join.session, join.steam);
      if error.Some? { return; }
      pending := pending[control := join];
    }

    method RemoveConnection(c: ConnectionId) returns (broadcast: Option<Broadcast>)
      requires Consistent()
      modifies this
      ensures Consistent() && (Value(), broadcast) == RelayModel.RemoveConnection(old(Value()), c)
    {
      RemoveConnectionKeepsValid(Value(), c);
      if c !in index { return None; }
      var session := index[c];
      index := index - {c};
      if session !in rooms { return None; }
      var room := rooms[session];
      if c !in room.peers { return None; }
      var peer := room.peers[c];
      rooms := rooms[session := room.(peers := room.peers - {c})];
      controls := controls - {peer.control};
      broadcast := BroadcastTo(Value(), session, None);
    }

    method RemoveDuplicate(session: Key, steam: SteamId)
      requires Consistent()
      modifies this
      ensures Consistent() && Value() == RelayModel.RemoveDuplicate(old(Value()), session, steam)
    {
      RemoveDuplicateKeepsValid(Value(), session, steam);
      if session in rooms {
        var room := rooms[session];
        var duplicate := FindPeer(room, steam);
        if duplicate.Some? {
          assert RoomOk(config, room);
          assert duplicate.value == FindSteam(room, steam);
          var _ := RemoveConnection(room.peers[duplicate.value].connection);
        }
      }
    }

    method Insert(join: Pending, control: PeerId, draw: Draw, now: Instant)
      modifies this
      ensures Value() == Admit(old(Value()), join, control, draw, now)
    {
      if join.session !in rooms {
        rooms := rooms[join.session := Room(map[], now)];
      }
      rooms := rooms[join.session :=
        Room(rooms[join.session].peers[draw.connection := NewPeer(join, control, draw, now)], now)];
      index := index[draw.connection := join.session];
      controls := controls[control := draw.connection];
    }

    /** Takes the challenge out and judges the answer to it. */
    method TakeChallenge(control: PeerId, proof: Proof, now: Instant) returns (taken: Result<Pending, StateError>)
      modifies this`pending
      ensures pending == old(pending) - {control}
      ensures var error := JoinError(old(Value()), control, proof, now);
              && (error.Some? ==> taken == Err(error.value))
              && (error.None? ==> control in old(pending) && taken == Ok(old(pending)[control]))
    {
      hide CapacityError;
      ghost var s := Value();
      if control !in pending {
        assert pending - {control} == pending;
        return Err(MissingChallenge);
      }
      var join := pending[control];
      pending := pending - {control};
      if join.challenge != proof.challenge { return Err(InvalidChallenge); }
      if Since(now, join.issuedAt) > CHALLENGE_LIFETIME { return Err(InvalidChallenge); }
      if !proof.accepted { return Err(InvalidProof); }
      var full := ValidateRoomCapacity(join.session, join.steam);
      CapacityIgnoresPending(s, pending, join.session, join.steam);
      taken := if full.Some? then Err(full.value) else Ok(join);
    }

    method CompleteJoin(control: PeerId, proof: Proof, draw: Draw, now: Instant)
      returns (ready: Result<Ready, StateError>)
      requires Consistent() && Legal(Value(), CompleteJoinEvent(control, proof, draw, now))
      modifies this
      ensures Consistent() && (Value(), ready) == RelayModel.CompleteJoin(old(Value()), control, proof, draw, now)
    {
      hide Valid, Legal, JoinError, Admit, RelayModel.RemoveDuplicate, RelayModel.BroadcastTo;
      ghost var s := Value();
      JoinKeepsValid(s, control, proof, draw, now);
      PendingKeepsValid(s, s.pending - {control});
      var taken := TakeChallenge(control, proof, now);
      if taken.Err? { return Err(taken.error); }
      var admitted := AdmitPending(taken.value, control, draw, now);
      ready := Ok(admitted);
    }

    method AdmitPending(join: Pending, control: PeerId, draw: Draw, now: Instant) returns (ready: Ready)
      requires Consistent()
      modifies this
      ensures Value() ==
                Admit(RelayModel.RemoveDuplicate(old(Value()), join.session, join.steam), join, control, draw, now)
      ensures ready == Ready(draw.connection, draw.resumeKey, join.profile,
                             BroadcastTo(Value(), join.session, Some(draw.connection)))
    {
      hide Valid, Admit, RelayModel.RemoveDuplicate, RelayModel.BroadcastTo;
      RemoveDuplicate(join.session, join.steam);
      Insert(join, control, draw, now);
      var broadcast := BroadcastTo(Value(), join.session, Some(draw.connection));
      ready := Ready(draw.connection, draw.resumeKey, join.profile, broadcast);
    }

    method Resume(control: PeerId, c: ConnectionId, key: Key, now: Instant)
      returns (resumed: Result<Resumed, ResumeFailure>)
      requires Consistent()
      modifies this
      ensures Consistent() && (Value(), resumed) == RelayModel.Resume(old(Value()), control, c, key, now)
    {
      hide Valid, RelayModel.BroadcastTo;
      ResumeKeepsValid(Value(), control, c, key, now);
      if c !in index || index[c] !in rooms || c !in rooms[index[c]].peers { return Err(UnknownResume); }
      var session := index[c];
      var peer := rooms[session].peers[c];
      if peer.resumeKey != key { return Err(InvalidCredential); }
      if peer.detachedUntil.Some? && now > peer.detachedUntil.value { return Err(Expired); }
      var peer' := peer.(control := control, presence := Connected, detachedUntil := None, lastSeen := now);
      rooms := rooms[session := Room(rooms[session].peers[c := peer'], now)];
      controls := controls[control := c];
      var broadcast := BroadcastTo(Value(), session, Some(c));
      resumed := Ok(Resumed(peer.profile, peer.profile == Udp && peer.udpAddress.Some?, broadcast));
    }

    method Detach(control: PeerId, now: Instant) returns (broadcast: Option<Broadcast>)
      requires Consistent()
      modifies this
      ensures Consistent() && (Value(), broadcast) == RelayModel.Detach(old(Value()), control, now)
    {
      hide Valid, RelayModel.BroadcastTo;
      DetachKeepsValid(Value(), control, now);
      if control !in controls { return None; }
      var c := controls[control];
      controls := controls - {control};
      if c !in index || index[c] !in rooms || c !in rooms[index[c]].peers { return None; }
      var session := index[c];
      var peer := rooms[session].peers[c];
      if peer.control != control || peer.presence == Reconnecting { return None; }
      var peer' := peer.(presence := Reconnecting, detachedUntil := Some(now + RECOVERY_GRACE));
      rooms := rooms[session := Room(rooms[session].peers[c := peer'], rooms[session].lastSeen)];
      broadcast := BroadcastTo(Value(), session, Some(c));
    }

    method Stop(control: PeerId) returns (broadcast: Option<Broadcast>)
      requires Consistent()
      modifies this
      ensures Consistent() && (Value(), broadcast) == RelayModel.Stop(old(Value()), control)
    {
      if control !in controls { return None; }
      var c := controls[control];
      controls := controls - {control};
      broadcast := RemoveConnection(c);
    }

    method BindUdpPath(c: ConnectionId, pathKey: Key, address: Address, now: Instant)
      returns (control: Result<PeerId, StateError>)
      requires Consistent()
      modifies this
      ensures Consistent() && (Value(), control) == RelayModel.BindUdpPath(old(Value()), c, pathKey, address, now)
    {
      hide Valid;
      BindKeepsValid(Value(), c, pathKey, address, now);
      if c !in index || index[c] !in rooms || c !in rooms[index[c]].peers { return Err(UnknownConnection); }
      var session := index[c];
      var peer := rooms[session].peers[c];
      if peer.profile != Udp { return Err(ProfileMismatch); }
      if peer.pathKey != Some(pathKey) { return Err(PathNotValidated); }
      peer := peer.(udpAddress := Some(address), lastSeen := now);
      rooms := rooms[session := Room(rooms[session].peers[c := peer], rooms[session].lastSeen)];
      control := Ok(peer.control);
    }

    method FindDestination(room: Room, toSteam: SteamId, requireProbe: bool)
      returns (target: Result<Destination, StateError>)
      requires OnePerSteam(room)
      ensures target == TargetDestination(room, toSteam, requireProbe)
    {
      var found := FindPeer(room, toSteam);
      if found.None? { return Err(TargetNotJoined); }
      assert found.value == FindSteam(room, toSteam);
      var peer := room.peers[found.value];
      if requireProbe && !CanProbe(peer.capabilities) { return Err(ProbeUnsupported); }
      if peer.profile == Udp {
        target := if peer.udpAddress.Some? then Ok(ToUdp(peer.udpAddress.value)) else Err(TargetUnavailable);
      } else {
        target := if peer.presence == Connected then Ok(ToTcp(peer.control)) else Err(TargetUnavailable);
      }
    }

    method RouteData(r: Request) returns (target: Result<Destination, StateError>)
      requires Consistent()
      modifies this
      ensures Consistent() && (Value(), target) == RelayModel.RouteData(old(Value()), r)
    {
      RouteDataKeepsValid(Value(), r);
      hide Valid, Observe, CheckTraffic, SourceError, TargetDestination;
      var c := r.connection;
      if c !in index || index[c] !in rooms || c !in rooms[index[c]].peers { return Err(UnknownConnection); }
      var session := index[c];
      var sender := rooms[session].peers[c];
      var sourceError := SourceError(sender, r.fromSteam, r.source);
      if sourceError.Some? { return Err(sourceError.value); }
      var (frames, decision) := Observe(sender.frames, r.frameId);
      if decision.Duplicate? { return Err(DuplicateFrame); }
      if decision.TooOld? { return Err(FrameTooOld); }
      var (budget, allowed) := CheckTraffic(sender.budget, config, r.frameBytes, r.now);
      sender := sender.(frames := frames, budget := budget);
      if !allowed {
        rooms := rooms[session := Room(rooms[session].peers[c := sender], rooms[session].lastSeen)];
        return Err(RateLimited);
      }
      sender := sender.(lastSeen := r.now);
      rooms := rooms[session := Room(rooms[session].peers[c := sender], r.now)];
      RoomsAreOk(Value(), session);
      target := FindDestination(rooms[session], r.toSteam, false);
    }

    method RouteProbe(r: Request) returns (target: Result<Destination, StateError>)
      requires Consistent()
      modifies this
      ensures Consistent() && (Value(), target) == RelayModel.RouteProbe(old(Value()), r)
    {
      RouteProbeKeepsValid(Value(), r);
      hide Valid, CheckTraffic, CheckProbe, SourceError, TargetDestination;
      var c := r.connection;
      if c !in index || index[c] !in rooms || c !in rooms[index[c]].peers { return Err(UnknownConnection); }
      var session := index[c];
      var sender := rooms[session].peers[c];
      var sourceError := SourceError(sender, r.fromSteam, r.source);
      if sourceError.Some? { return Err(sourceError.value); }
      if !CanProbe(sender.capabilities) { return Err(ProbeUnsupported); }
      var (budget, allowed) := CheckTraffic(sender.budget, config, r.frameBytes, r.now);
      if !allowed {
        rooms := rooms[session := Room(rooms[session].peers[c := sender.(budget := budget)], rooms[session].lastSeen)];
        return Err(RateLimited);
      }
      var (budget', probeAllowed) := CheckProbe(budget, r.now);
      if !probeAllowed {
        rooms := rooms[session := Room(rooms[session].peers[c := sender.(budget := budget')], rooms[session].lastSeen)];
        return Err(ProbeRateLimited);
      }
      rooms := rooms[session := Room(rooms[session].peers[c := sender.(budget := budget', lastSeen := r.now)], r.now)];
      RoomsAreOk(Value(), session);
      target := FindDestination(rooms[session], r.toSteam, true);
    }

    /** One turn of the loop: `gone` are the connections removed from `s` so far. */
    method RemoveNext(c: ConnectionId, sent: set<Notice>,
                      ghost s: State, ghost gone: set<ConnectionId>, ghost now: Instant)
      returns (broadcasts: set<Notice>)
      requires Value() == Without(s, gone) && sent == CleanupBroadcasts(s, gone)
      requires Valid(s) && c !in gone && AllExpired(s, gone + {c}, now)
      modifies this
      ensures Value() == Without(s, gone + {c})
      ensures broadcasts == CleanupBroadcasts(s, gone + {c})
    {
      hide Valid, Without, RelayModel.RemoveConnection, CleanupBroadcasts, AllExpired;
      WithoutKeepsValid(s, gone);
      RemoveOneMore(s, gone, c, now);
      var broadcast := RemoveConnection(c);
      broadcasts := if broadcast.Some? then sent + {Notice(c, broadcast.value)} else sent;
    }

    /** The loop over the expired connections, in whatever order they come. */
    method RemoveEach(expired: set<ConnectionId>, ghost now: Instant) returns (broadcasts: set<Notice>)
      requires Consistent() && AllExpired(Value(), expired, now)
      modifies this
      ensures Consistent() && Value() == Without(old(Value()), expired)
      ensures broadcasts == CleanupBroadcasts(old(Value()), expired)
    {
      hide Valid, Without, CleanupBroadcasts;
      ghost var s, gone: set<ConnectionId> := Value(), {};
      WithoutNone(s);
      var rest := expired;
      broadcasts := {};
      while rest != {}
        invariant gone + rest == expired && gone !! rest
        invariant Value() == Without(s, gone)
        invariant broadcasts == CleanupBroadcasts(s, gone)
        decreases rest
      {
        SomeMember(rest);
        var c :| c in rest;
        broadcasts := RemoveNext(c, broadcasts, s, gone, now);
        rest, gone := rest - {c}, gone + {c};
      }
      assert gone == expired;
      WithoutKeepsValid(s, gone);
    }

    method Cleanup(now: Instant) returns (broadcasts: set<Notice>)
      requires Consistent()
      modifies this
      ensures Consistent() && Value() == RelayModel.Cleanup(old(Value()), now)
      ensures broadcasts == CleanupBroadcasts(old(Value()), ExpiredConnections(old(Value()), now))
    {
      CleanupKeepsValid(Value(), now);
      CleanupPhases(Value(), now);
      hide Valid, RelayModel.Cleanup, Without, ExpiredConnections, CleanupBroadcasts;
      hide ExpiredAt, PendingDropped, Retained;
      DropPending(now);
      broadcasts := DropExpired(now);
      DropIdleRooms(now);
    }

    method DropPending(now: Instant)
      modifies this
      ensures Value() == PendingDropped(old(Value()), now)
    {
      pending := pending - set p | p in pending && Since(now, pending[p].issuedAt) >= CHALLENGE_LIFETIME;
    }

    method DropExpired(now: Instant) returns (broadcasts: set<Notice>)
      requires Consistent() && AllExpired(Value(), ExpiredConnections(Value(), now), now)
      modifies this
      ensures var expired := ExpiredConnections(old(Value()), now);
              && Consistent() && Value() == Without(old(Value()), expired)
              && broadcasts == CleanupBroadcasts(old(Value()), expired)
    {
      ExpiredByRoom(Value(), now);
      hide Valid, Without, ExpiredConnections, CleanupBroadcasts, ExpiredAt;
      var expired := set k, c | k in rooms && c in rooms[k].peers && ExpiredAt(rooms[k].peers[c], now)
        :: rooms[k].peers[c].connection;
      broadcasts := RemoveEach(expired, now);
    }

    method DropIdleRooms(now: Instant)
      modifies this
      ensures Value() == old(Value()).(rooms := Retained(config, old(rooms), now))
    {
      rooms := rooms - set k | k in rooms && Abandoned(config, rooms[k], now);
    }
  }

  function PendingDropped(s: State, now: Instant): State {
    s.(pending := FreshPending(s.pending, now))
  }

  /** Dropping stale challenges, then expired peers one by one, then idle rooms, is the cleanup. */
  lemma CleanupPhases(s: State, now: Instant)
    requires Valid(s)
    ensures var s1, expired := PendingDropped(s, now), ExpiredConnections(s, now);
            && Valid(s1) && AllExpired(s1, expired, now)
            && ExpiredConnections(s1, now) == expired
            && CleanupBroadcasts(s1, expired) == CleanupBroadcasts(s, expired)
            && Without(s1, expired).(rooms := Retained(s.config, Without(s1, expired).rooms, now)) == Cleanup(s, now)
  {
    var s1 := PendingDropped(s, now);
    PendingDoesNotMatter(s, s1.pending, now);
  }

  lemma ExpiredByRoom(s: State, now: Instant)
    requires Valid(s)
    ensures (set k, c | k in s.rooms && c in s.rooms[k].peers && ExpiredAt(s.rooms[k].peers[c], now)
               :: s.rooms[k].peers[c].connection) == ExpiredConnections(s, now)
  {
    var byRoom := set k, c | k in s.rooms && c in s.rooms[k].peers && ExpiredAt(s.rooms[k].peers[c], now)
      :: s.rooms[k].peers[c].connection;
    forall c | c in byRoom
      ensures c in ExpiredConnections(s, now)
    {
      var k, d :| k in s.rooms && d in s.rooms[k].peers && ExpiredAt(s.rooms[k].peers[d], now)
                  && s.rooms[k].peers[d].connection == c;
      assert RoomIndexed(s.index, k, s.rooms[k]) && RoomOk(s.config, s.rooms[k]) && PeerOk(d, s.rooms[k].peers[d]);
    }
    forall c | c in ExpiredConnections(s, now)
      ensures c in byRoom
    {
      HasEveryIndexed(s, c);
      var k := s.index[c];
      assert k in s.rooms && c in s.rooms[k].peers && s.rooms[k].peers[c].connection == c;
    }
  }
}
