/** Each operation of the relay by what it promises its callers: when it succeeds, which error it gives otherwise, whose
    record it changes and how, and who is told. */
module RelayExact {
  import opened Prelude
  import opened FrameWindow
  import opened RelayModel
  import opened RelayInvariant
  import opened RelayLife
  import opened RelayTraffic
  import opened RelayControl

  const SECONDS: nat := 1_000_000_000

  // ---- Who is untouched, and who is told ----

  /** Every connection but `c` is as it was. */
  ghost predicate OthersKept(s: State, s': State, c: ConnectionId) {
    && (forall d :: d != c ==> (Has(s', d) <==> Has(s, d)))
    && (forall d :: d != c && Has(s, d) ==> s'.index[d] == s.index[d] && PeerOf(s', d) == PeerOf(s, d))
  }

  /** The same rooms, with the same times of last contact, except that room `k` was seen at `now`. */
  ghost predicate Stamped(s: State, s': State, k: Key, now: Instant) {
    && s'.rooms.Keys == s.rooms.Keys
    && forall j :: j in s.rooms ==> s'.rooms[j].lastSeen == if j == k then now else s.rooms[j].lastSeen
  }

  /** A connected peer of the session that is not the excluded one. */
  ghost predicate Listens(s: State, k: Key, exclude: Option<ConnectionId>, r: Recipient) {
    && Has(s, r.connection) && s.index[r.connection] == k && Some(r.connection) != exclude
    && PeerOf(s, r.connection).presence == Connected && PeerOf(s, r.connection).control == r.control
  }

  /** The broadcast goes to exactly those, and there is none if there are none. */
  ghost predicate Told(s: State, k: Key, exclude: Option<ConnectionId>, b: Option<Broadcast>) {
    && (b.Some? ==> b.value != {} && forall r :: r in b.value <==> Listens(s, k, exclude, r))
    && (b.None? ==> forall r :: !Listens(s, k, exclude, r))
  }

  /** In a valid state a room holds exactly the connections indexed under it. */
  lemma RoomMember(s: State, k: Key, d: ConnectionId)
    requires Valid(s) && k in s.rooms
    ensures d in s.rooms[k].peers <==> Has(s, d) && s.index[d] == k
    ensures d in s.rooms[k].peers ==> PeerOf(s, d) == s.rooms[k].peers[d]
  {
    assert RoomIndexed(s.index, k, s.rooms[k]);
    hide Valid;
  }

  lemma BroadcastIsTold(s: State, k: Key, exclude: Option<ConnectionId>)
    requires Valid(s) && k in s.rooms
    ensures Told(s, k, exclude, BroadcastTo(s, k, exclude))
  {
    var b := Recipients(s.rooms[k], exclude);
    forall r: Recipient
      ensures r in b <==> Listens(s, k, exclude, r)
    {
      RoomMember(s, k, r.connection);
      hide Valid;
    }
    hide Valid, Recipients, Listens;
    if b == {} {
      forall r: Recipient ensures r !in b {}
    }
  }

  lemma PutKeepsOthers(s: State, c: ConnectionId, p: Peer, now: Instant)
    requires Has(s, c)
    ensures var s' := PutPeer(s, s.index[c], c, p, now);
            Has(s', c) && PeerOf(s', c) == p && OthersKept(s, s', c) && Stamped(s, s', s.index[c], now)
  {
    var s' := PutPeer(s, s.index[c], c, p, now);
    assert Stamped(s, s', s.index[c], now);
    PutPeerFacts(s, c, p, now, c);
    hide PutPeer, Has, PeerOf, Stamped;
    forall d
      ensures Has(s', d) <==> Has(s, d)
      ensures d != c && Has(s, d) ==> s'.index[d] == s.index[d] && PeerOf(s', d) == PeerOf(s, d)
    {
      PutPeerFacts(s, c, p, now, d);
    }
  }

  /** A change of the control map alone is no change of any connection. */
  lemma ControlsAside(s: State, s1: State, s': State, c: ConnectionId, k: Key, now: Instant)
    requires Has(s1, c) && OthersKept(s, s1, c) && Stamped(s, s1, k, now)
    requires s' == s1.(controls := s'.controls)
    ensures Has(s', c) && PeerOf(s', c) == PeerOf(s1, c) && OthersKept(s, s', c) && Stamped(s, s', k, now)
  {
    SameRecords(s1, s');
    hide Has, PeerOf;
  }

  lemma SameRecords(s: State, s': State)
    requires s'.rooms == s.rooms && s'.index == s.index
    ensures forall d :: Has(s', d) <==> Has(s, d)
    ensures forall d :: Has(s, d) ==> PeerOf(s', d) == PeerOf(s, d)
  {
  }

  // ---- Resuming ----

  /** A connection is resumed if and only if it is known, the key is its own, and a deadline, if it has one, is not
      past. It is then connected under the new control peer without a deadline, and nothing else of it is changed. */
  lemma ResumeIsExact(s: State, control: PeerId, c: ConnectionId, key: Key, now: Instant)
    requires Valid(s)
    ensures var (s', r) := Resume(s, control, c, key, now);
            && (r.Ok? <==> Has(s, c) && PeerOf(s, c).resumeKey == key
                           && (PeerOf(s, c).detachedUntil.Some? ==> now <= PeerOf(s, c).detachedUntil.value))
            && (r.Err? ==>
                  s' == s && r.error == if !Has(s, c) then UnknownResume
                                        else if PeerOf(s, c).resumeKey != key then InvalidCredential else Expired)
            && (r.Ok? ==> Resumes(s, s', control, c, now) && Told(s', s.index[c], Some(c), r.value.broadcast)
                          && r.value.profile == PeerOf(s, c).profile
                          && (r.value.udpPathValid <==> r.value.profile == Udp && PeerOf(s, c).udpAddress.Some?))
  {
    ResumeKeepsValid(s, control, c, key, now);
    hide Valid, BroadcastTo, Told;
    if ResumeError(s, c, key, now).None? {
      var p := PeerOf(s, c).(control := control, presence := Connected, detachedUntil := None, lastSeen := now);
      var s1, s' := PutPeer(s, s.index[c], c, p, now), Resume(s, control, c, key, now).0;
      assert s' == s1.(controls := s.controls[control := c]);
      PutKeepsOthers(s, c, p, now);
      ControlsAside(s, s1, s', c, s.index[c], now);
      BroadcastIsTold(s', s.index[c], Some(c));
      hide OthersKept, Stamped;
    }
  }

  ghost predicate Resumes(s: State, s': State, control: PeerId, c: ConnectionId, now: Instant)
    requires Has(s, c)
  {
    && Has(s', c)
    && PeerOf(s', c) ==
       PeerOf(s, c).(control := control, presence := Connected, detachedUntil := None, lastSeen := now)
    && OthersKept(s, s', c) && Stamped(s, s', s.index[c], now)
    && s'.index == s.index && s'.controls == s.controls[control := c]
    && s'.pending == s.pending && s'.config == s.config
  }

  // ---- Detaching ----

  /** The control peer is mapped to a connection that is connected under it. */
  ghost predicate Owns(s: State, control: PeerId) {
    && control in s.controls && Has(s, s.controls[control])
    && PeerOf(s, s.controls[control]).control == control && PeerOf(s, s.controls[control]).presence == Connected
  }

  /** The detach of the owner starts a recovery period of 120 seconds and tells the others; any other detach only takes
      the control peer out of the map. */
  lemma DetachIsExact(s: State, control: PeerId, now: Instant)
    requires Valid(s)
    ensures var (s', b) := Detach(s, control, now);
            && s'.controls == s.controls - {control} && s'.index == s.index && s'.pending == s.pending
            && (!Owns(s, control) ==> b == None && s'.rooms == s.rooms)
            && (Owns(s, control) ==>
                  var c := s.controls[control];
                  && Has(s', c) && OthersKept(s, s', c) && Stamped(s, s', s.index[c], s.rooms[s.index[c]].lastSeen)
                  && PeerOf(s', c) ==
                     PeerOf(s, c).(presence := Reconnecting, detachedUntil := Some(now + 120 * SECONDS))
                  && Told(s', s.index[c], Some(c), b))
  {
    hide Valid, BroadcastTo, Told, Has, PeerOf, OthersKept, Stamped;
    if Owns(s, control) {
      DetachOfOwner(s, control, now);
    } else if control !in s.controls {
      assert s.controls - {control} == s.controls;
    } else {
      DetachOfStranger(s, control, now);
    }
  }

  lemma DetachOfStranger(s: State, control: PeerId, now: Instant)
    requires control in s.controls && !Owns(s, control)
    ensures Detach(s, control, now) == (s.(controls := s.controls - {control}), None)
  {
    hide BroadcastTo;
  }

  lemma DetachPuts(s: State, control: PeerId, now: Instant)
    requires Owns(s, control)
    ensures var c := s.controls[control];
            var p := PeerOf(s, c).(presence := Reconnecting, detachedUntil := Some(now + 120 * SECONDS));
            var s' := PutPeer(s, s.index[c], c, p, s.rooms[s.index[c]].lastSeen).(controls := s.controls - {control});
            Detach(s, control, now) == (s', BroadcastTo(s', s.index[c], Some(c)))
  {
    hide BroadcastTo;
  }

  lemma DetachOfOwner(s: State, control: PeerId, now: Instant)
    requires Valid(s) && Owns(s, control)
    ensures var (s', b) := Detach(s, control, now);
            var c := s.controls[control];
            && s'.controls == s.controls - {control} && s'.index == s.index && s'.pending == s.pending
            && Has(s', c) && OthersKept(s, s', c) && Stamped(s, s', s.index[c], s.rooms[s.index[c]].lastSeen)
            && PeerOf(s', c) == PeerOf(s, c).(presence := Reconnecting, detachedUntil := Some(now + 120 * SECONDS))
            && Told(s', s.index[c], Some(c), b)
  {
    var c, s' := s.controls[control], Detach(s, control, now).0;
    var seen := s.rooms[s.index[c]].lastSeen;
    var p := PeerOf(s, c).(presence := Reconnecting, detachedUntil := Some(now + 120 * SECONDS));
    var s1 := PutPeer(s, s.index[c], c, p, seen);
    DetachPuts(s, control, now);
    assert s1.index == s.index && s1.pending == s.pending && s.index[c] in s1.rooms;
    PutKeepsOthers(s, c, p, seen);
    DetachKeepsValid(s, control, now);
    hide Valid, BroadcastTo, Told, Has, PeerOf, OthersKept, Stamped, Detach, PutPeer;
    ControlsAside(s, s1, s', c, s.index[c], seen);
    BroadcastIsTold(s', s.index[c], Some(c));
  }

  /** No detach in the run is dated before the deadline less the recovery period. */
  ghost predicate DetachesSince(es: seq<Event>, deadline: Instant) {
    forall i :: 0 <= i < |es| && es[i].DetachEvent? ==> es[i].now + 120 * SECONDS >= deadline
  }

  lemma {:induction false} DeadlineLasts(s: State, es: seq<Event>, c: ConnectionId, deadline: Instant)
    requires Valid(s) && LegalRun(s, es) && LivesThrough(s, es, c) && DetachesSince(es, deadline)
    requires Has(s, c) && (PeerOf(s, c).detachedUntil.Some? ==> PeerOf(s, c).detachedUntil.value >= deadline)
    ensures var s' := Run(s, es);
            && Has(s', c) && PeerOf(s', c).resumeKey == PeerOf(s, c).resumeKey
            && (PeerOf(s', c).detachedUntil.Some? ==> PeerOf(s', c).detachedUntil.value >= deadline)
    decreases |es|
  {
    if es != [] {
      hide Valid, Has, PeerOf, Step, Legal, Issues;
      LivesOn(s, es, c);
      StepKeepsValid(s, es[0]);
      assert es[0].DetachEvent? ==> es[0].now + 120 * SECONDS >= deadline;
      DeadlineStays(s, es[0], c, deadline);
      DeadlineLasts(Step(s, es[0]), es[1..], c, deadline);
    }
  }

  lemma DeadlineStays(s: State, e: Event, c: ConnectionId, deadline: Instant)
    requires Valid(s) && Legal(s, e) && c in s.index && c in Step(s, e).index && !Issues(s, e, c)
    requires e.DetachEvent? ==> e.now + 120 * SECONDS >= deadline
    requires Has(s, c) && (PeerOf(s, c).detachedUntil.Some? ==> PeerOf(s, c).detachedUntil.value >= deadline)
    ensures var s' := Step(s, e);
            && Has(s', c) && PeerOf(s', c).resumeKey == PeerOf(s, c).resumeKey
            && (PeerOf(s', c).detachedUntil.Some? ==> PeerOf(s', c).detachedUntil.value >= deadline)
  {
    hide Valid, Has, PeerOf, Step, Legal, Issues, RefusesMore;
    StepKeepsValid(s, e);
    StepContinues(s, e, c);
    StepMinds(s, e, c);
  }

  lemma LivesOn(s: State, es: seq<Event>, c: ConnectionId)
    requires es != [] && LivesThrough(s, es, c)
    ensures c in s.index && c in Step(s, es[0]).index && !Issues(s, es[0], c)
    ensures LivesThrough(Step(s, es[0]), es[1..], c)
  {
    hide Step, Issues;
    assert LivesThrough(Step(s, es[0]), es[1..], c);
  }

  /** A connection whose owner detaches can be resumed with its key at any time up to 120 seconds later, over any
      control connection, whatever happens in between that does not end it, if the clock does not run backwards. */
  lemma DetachedCanResume(s: State, control: PeerId, t: Instant, es: seq<Event>, control': PeerId, now: Instant)
    requires Valid(s) && Owns(s, control)
    requires var s1 := Detach(s, control, t).0;
             LegalRun(s1, es) && LivesThrough(s1, es, s.controls[control]) && DetachesSince(es, t + 120 * SECONDS)
    requires now <= t + 120 * SECONDS
    ensures var c := s.controls[control];
            var s2 := Run(Detach(s, control, t).0, es);
            Resume(s2, control', c, PeerOf(s, c).resumeKey, now).1.Ok?
  {
    var c, s1 := s.controls[control], Detach(s, control, t).0;
    hide Valid, Detach, Has, PeerOf, LegalRun, LivesThrough, Run, Resume, OthersKept, Stamped, Told;
    DetachOfOwner(s, control, t);
    DetachKeepsValid(s, control, t);
    DeadlineLasts(s1, es, c, t + 120 * SECONDS);
    RunKeepsValid(s1, es);
    ResumeIsExact(Run(s1, es), control', c, PeerOf(s, c).resumeKey, now);
  }

  // ---- Stopping ----

  /** A stop takes the control peer out of the map, ends exactly the connection it was mapped to, and tells the rest. */
  lemma StopIsExact(s: State, control: PeerId)
    requires Valid(s)
    ensures var (s', b) := Stop(s, control);
            && s'.pending == s.pending && s'.config == s.config
            && (control !in s.controls ==> s' == s && b == None)
            && (control in s.controls && !Has(s, s.controls[control]) ==>
                  s' == s.(controls := s.controls - {control}) && b == None)
            && (control in s.controls && Has(s, s.controls[control]) ==>
                  var c := s.controls[control];
                  && !Has(s', c) && OthersKept(s, s', c) && Told(s', s.index[c], None, b)
                  && Stamped(s, s', s.index[c], s.rooms[s.index[c]].lastSeen)
                  && s'.controls == s.controls - {control, PeerOf(s, c).control})
  {
    hide Valid, BroadcastTo, Told, Has, PeerOf, OthersKept, Stamped, RemoveConnection;
    if control in s.controls {
      var c, s0 := s.controls[control], s.(controls := s.controls - {control});
      HasEveryIndexed(s, c);
      StopKeepsValid(s, control);
      SameRecords(s, s0);
      if Has(s, c) {
        RemoveTells(s0, c);
        RemoveKeepsOthers(s0, c);
        BroadcastIsTold(Stop(s, control).0, s.index[c], None);
        OthersOfSame(s, s0, RemoveConnection(s0, c).0, c);
        StampsOfSame(s, s0, RemoveConnection(s0, c).0, s.index[c], s.rooms[s.index[c]].lastSeen);
        assert s.controls - {control} - {PeerOf(s, c).control} == s.controls - {control, PeerOf(s, c).control};
      } else {
        RemoveOfNobody(s0, c);
      }
    }
  }

  lemma OthersOfSame(s: State, s0: State, s': State, c: ConnectionId)
    requires s0.rooms == s.rooms && s0.index == s.index && OthersKept(s0, s', c)
    ensures OthersKept(s, s', c)
  {
    SameRecords(s, s0);
    hide Has, PeerOf;
  }

  lemma StampsOfSame(s: State, s0: State, s': State, k: Key, seen: Instant)
    requires s0.rooms == s.rooms && Stamped(s0, s', k, seen)
    ensures Stamped(s, s', k, seen)
  {
  }

  lemma RemoveOfNobody(s: State, c: ConnectionId)
    requires c !in s.index
    ensures RemoveConnection(s, c) == (s, None)
  {
  }

  lemma RemoveTells(s: State, c: ConnectionId)
    requires Has(s, c)
    ensures var (s', b) := RemoveConnection(s, c);
            && s.index[c] in s'.rooms && b == BroadcastTo(s', s.index[c], None) && s'.rooms.Keys == s.rooms.Keys
            && s'.pending == s.pending && s'.config == s.config
            && Stamped(s, s', s.index[c], s.rooms[s.index[c]].lastSeen)
  {
    hide BroadcastTo;
  }

  lemma RemoveKeepsOthers(s: State, c: ConnectionId)
    requires Has(s, c)
    ensures var s' := RemoveConnection(s, c).0;
            !Has(s', c) && OthersKept(s, s', c) && s'.controls == s.controls - {PeerOf(s, c).control}
  {
    RemoveFacts(s, c, c);
    hide RemoveConnection, Has, PeerOf;
    var s' := RemoveConnection(s, c).0;
    forall d
      ensures Has(s', d) <==> Has(s, d) && d != c
      ensures d != c && Has(s, d) ==> s'.index[d] == s.index[d] && PeerOf(s', d) == PeerOf(s, d)
    {
      RemoveFacts(s, c, d);
    }
  }

  // ---- Binding a UDP path ----

  /** A path is bound if and only if the connection is known, uses UDP and the path key is its own. */
  lemma BindIsExact(s: State, c: ConnectionId, pathKey: Key, address: Address, now: Instant)
    requires Valid(s)
    ensures var (s', r) := BindUdpPath(s, c, pathKey, address, now);
            && (r.Ok? <==> Has(s, c) && PeerOf(s, c).profile == Udp && PeerOf(s, c).pathKey == Some(pathKey))
            && (r.Err? ==> s' == s && r.error == if !Has(s, c) then UnknownConnection
                                                 else if PeerOf(s, c).profile == Tcp then ProfileMismatch
                                                 else PathNotValidated)
            && (r.Ok? ==>
                  && r.value == PeerOf(s, c).control
                  && Has(s', c) && PeerOf(s', c) == PeerOf(s, c).(udpAddress := Some(address), lastSeen := now)
                  && OthersKept(s, s', c) && Stamped(s, s', s.index[c], s.rooms[s.index[c]].lastSeen)
                  && s'.index == s.index && s'.controls == s.controls && s'.pending == s.pending)
  {
    hide Valid;
    if BindUdpPath(s, c, pathKey, address, now).1.Ok? {
      PutKeepsOthers(s, c, PeerOf(s, c).(udpAddress := Some(address), lastSeen := now), s.rooms[s.index[c]].lastSeen);
      hide OthersKept, Stamped;
    }
  }

  // ---- Joining ----

  /** There is a place: the room is new and another room fits, or the player is in it already, or it is not full. */
  ghost predicate HasPlace(s: State, session: Key, steam: SteamId) {
    if session in s.rooms then
      (exists d :: Has(s, d) && s.index[d] == session && PeerOf(s, d).steam == steam)
      || |s.rooms[session].peers| < s.config.maxPeersPerRoom
    else |s.rooms| < s.config.maxRooms
  }

  lemma CapacityIsExact(s: State, session: Key, steam: SteamId)
    requires Valid(s)
    ensures CapacityError(s, session, steam) ==
              if HasPlace(s, session, steam) then None
              else if session in s.rooms then Some(RoomFull) else Some(RelayFull)
  {
    if session in s.rooms {
      var room := s.rooms[session];
      if HoldsSteam(room, steam) {
        var d :| d in room.peers && room.peers[d].steam == steam;
        RoomMember(s, session, d);
      }
      if d :| Has(s, d) && s.index[d] == session && PeerOf(s, d).steam == steam {
        RoomMember(s, session, d);
        assert HoldsSteam(room, steam);
      }
      hide Valid, Has, PeerOf;
    }
  }

  /** A join is challenged if and only if there is a place for it. */
  lemma BeginJoinIsExact(s: State, control: PeerId, join: Pending)
    requires Valid(s)
    ensures var (s', error) := BeginJoin(s, control, join);
            && (error.None? <==> HasPlace(s, join.session, join.steam))
            && (error.Some? ==> s' == s && error.value == if join.session in s.rooms then RoomFull else RelayFull)
            && (error.None? ==> s' == s.(pending := s.pending[control := join]))
  {
    CapacityIsExact(s, join.session, join.steam);
    hide Valid, HasPlace, CapacityError;
  }

  /** The connection the player of this join already had in the session. */
  ghost predicate Superseded(s: State, join: Pending, d: ConnectionId) {
    Has(s, d) && s.index[d] == join.session && PeerOf(s, d).steam == join.steam
  }

  ghost function ControlsSuperseded(s: State, join: Pending): set<PeerId> {
    set d | d in s.index && Superseded(s, join, d) :: PeerOf(s, d).control
  }

  /** A join completes if and only if it was challenged, the answer is to that challenge, within thirty seconds,
      correct, and there is still a place. */
  lemma CompleteJoinIsExact(s: State, control: PeerId, proof: Proof, draw: Draw, now: Instant)
    requires Valid(s)
    ensures var (s', r) := CompleteJoin(s, control, proof, draw, now);
            && (r.Ok? <==>
                  && control in s.pending && s.pending[control].challenge == proof.challenge && proof.accepted
                  && now - s.pending[control].issuedAt <= 30 * SECONDS
                  && HasPlace(s, s.pending[control].session, s.pending[control].steam))
            && (r.Err? ==>
                  && s' == s.(pending := s.pending - {control})
                  && r.error == if control !in s.pending then MissingChallenge
                                else if s.pending[control].challenge != proof.challenge
                                        || now - s.pending[control].issuedAt > 30 * SECONDS then InvalidChallenge
                                else if !proof.accepted then InvalidProof
                                else if s.pending[control].session in s.rooms then RoomFull else RelayFull)
  {
    JoinErrorIsExact(s, control, proof, now);
    hide Valid, HasPlace, JoinError, Vacated, Admit, BroadcastTo;
  }

  lemma JoinErrorIsExact(s: State, control: PeerId, proof: Proof, now: Instant)
    requires Valid(s)
    ensures JoinError(s, control, proof, now) ==
              if control !in s.pending then Some(MissingChallenge)
              else
                var join := s.pending[control];
                if join.challenge != proof.challenge || now - join.issuedAt > 30 * SECONDS then Some(InvalidChallenge)
                else if !proof.accepted then Some(InvalidProof)
                else if HasPlace(s, join.session, join.steam) then None
                else if join.session in s.rooms then Some(RoomFull) else Some(RelayFull)
  {
    hide Valid, HasPlace, CapacityError;
    if control in s.pending { CapacityIsExact(s, s.pending[control].session, s.pending[control].steam); }
  }

  /** The record of a new peer. */
  ghost predicate NewRecord(p: Peer, join: Pending, control: PeerId, draw: Draw, now: Instant) {
    && p.control == control && p.connection == draw.connection && p.resumeKey == draw.resumeKey
    && p.pathKey == (if join.profile == Udp then Some(draw.pathKey) else None) && p.udpAddress == None
    && p.steam == join.steam && p.profile == join.profile && p.capabilities == join.capabilities
    && p.presence == Connected && p.detachedUntil == None && p.lastSeen == now
    && p.frames.highest == None && p.budget == Budget(now, 0, 0, now, 0)
  }

  /** A completed join replaces exactly the connection its player had in the session by a new one, and tells the
      others. */
  lemma JoinAdmitsExactly(s: State, control: PeerId, proof: Proof, draw: Draw, now: Instant)
    requires Valid(s) && Legal(s, CompleteJoinEvent(control, proof, draw, now))
    requires CompleteJoin(s, control, proof, draw, now).1.Ok?
    ensures var (s', r) := CompleteJoin(s, control, proof, draw, now);
            var join, c := s.pending[control], draw.connection;
            && Has(s', c) && s'.index[c] == join.session && NewRecord(PeerOf(s', c), join, control, draw, now)
            && (forall d :: d != c ==> (Has(s', d) <==> Has(s, d) && !Superseded(s, join, d)))
            && (forall d :: d != c && Has(s', d) ==> PeerOf(s', d) == PeerOf(s, d) && s'.index[d] == s.index[d])
            && s'.pending == s.pending - {control} && s'.rooms[join.session].lastSeen == now
            && s'.controls == (s.controls - ControlsSuperseded(s, join))[control := c]
            && r.value.connection == c && r.value.resumeKey == draw.resumeKey && r.value.profile == join.profile
            && Told(s', join.session, Some(c), r.value.broadcast)
  {
    var e, join, c := CompleteJoinEvent(control, proof, draw, now), s.pending[control], draw.connection;
    assert Admits(s, e) by { hide Valid, Vacated, Admit, BroadcastTo, CapacityError; }
    var s1, s' := Vacated(s, control), CompleteJoin(s, control, proof, draw, now).0;
    JoinKeepsValid(s, control, proof, draw, now);
    assert c !in s1.index && s1.pending == s.pending - {control} by {
      VacatedPending(s, control);
      hide Valid, JoinError;
    }
    assert s' == Admit(s1, join, control, draw, now) by { hide Valid, Vacated, Admit, BroadcastTo, CapacityError; }
    VacatedIsExact(s, e);
    hide Valid, Legal, Vacated, JoinError, Told, BroadcastTo;
    AdmitIsExact(s1, join, control, draw, now);
    BroadcastIsTold(s', join.session, Some(c));
    hide Has, PeerOf, NewRecord;
  }

  /** It adds its session if it is new; no other session is seen by it. */
  lemma JoinStampsItsSession(s: State, control: PeerId, proof: Proof, draw: Draw, now: Instant)
    requires CompleteJoin(s, control, proof, draw, now).1.Ok?
    ensures var s', k := CompleteJoin(s, control, proof, draw, now).0, s.pending[control].session;
            && s'.rooms.Keys == s.rooms.Keys + {k} && s'.rooms[k].lastSeen == now && s'.config == s.config
            && forall j :: j in s.rooms && j != k ==> s'.rooms[j].lastSeen == s.rooms[j].lastSeen
  {
    hide CapacityError, BroadcastTo, HoldsSteam, FindSteam;
    var join, s1 := s.pending[control], Vacated(s, control);
    assert CompleteJoin(s, control, proof, draw, now).0 == Admit(s1, join, control, draw, now);
    assert s1.config == s.config && s1.rooms.Keys == s.rooms.Keys;
    assert forall j :: j in s.rooms ==> s1.rooms[j].lastSeen == s.rooms[j].lastSeen;
    hide Vacated, CompleteJoin;
  }

  lemma VacatedPending(s: State, control: PeerId)
    requires control in s.pending
    ensures Vacated(s, control).pending == s.pending - {control}
  {
    hide BroadcastTo;
  }

  lemma AdmitIsExact(s: State, join: Pending, control: PeerId, draw: Draw, now: Instant)
    requires draw.connection !in s.index
    ensures var s', c := Admit(s, join, control, draw, now), draw.connection;
            && Has(s', c) && s'.index[c] == join.session && NewRecord(PeerOf(s', c), join, control, draw, now)
            && (forall d :: d != c && Has(s, d) ==>
                  Has(s', d) && PeerOf(s', d) == PeerOf(s, d) && s'.index[d] == s.index[d])
            && (forall d :: d != c && d !in s.index ==> !Has(s', d))
            && s'.pending == s.pending && join.session in s'.rooms && s'.rooms[join.session].lastSeen == now
            && s'.controls == s.controls[control := c]
  {
    var s', c := Admit(s, join, control, draw, now), draw.connection;
    assert Has(s', c) && PeerOf(s', c) == NewPeer(join, control, draw, now);
    forall d | d != c && Has(s, d)
      ensures Has(s', d) && PeerOf(s', d) == PeerOf(s, d) && s'.index[d] == s.index[d]
    {
      AdmitFacts(s, join, control, draw, now, d);
    }
    assert s'.index == s.index[c := join.session] && s'.rooms[join.session].lastSeen == now;
    hide Admit;
  }

  lemma VacatedIsExact(s: State, e: Event)
    requires Valid(s) && Admits(s, e)
    ensures var s1, join := Vacated(s, e.control), s.pending[e.control];
            && (forall d :: Has(s1, d) <==> Has(s, d) && !Superseded(s, join, d))
            && (forall d :: Has(s1, d) ==> PeerOf(s1, d) == PeerOf(s, d) && s1.index[d] == s.index[d])
            && (forall d :: d in s1.index ==> Has(s1, d))
            && s1.controls == s.controls - ControlsSuperseded(s, join)
  {
    var s0, s1, join := s.(pending := s.pending - {e.control}), Vacated(s, e.control), s.pending[e.control];
    assert Valid(s0);
    hide Valid, JoinError, RemoveConnection, Has, PeerOf, Superseded;
    SameRecords(s, s0);
    VacatedIsRemoved(s, e);
    RemoveDuplicateKeepsValid(s0, join.session, join.steam);
    assert s1 == RemoveDuplicate(s0, join.session, join.steam);
    hide Vacated, RemoveDuplicate;
    forall d | d in s1.index ensures Has(s1, d) { HasEveryIndexed(s1, d); }
    if join.session in s.rooms && HoldsSteam(s.rooms[join.session], join.steam) {
      var c := FindSteam(s.rooms[join.session], join.steam);
      SupersededIsFound(s, join);
      RemoveKeepsOthers(s0, c);
    } else {
      SupersededIsNobody(s, join);
      assert s.controls - {} == s.controls;
    }
  }

  lemma SupersededIsFound(s: State, join: Pending)
    requires Valid(s) && join.session in s.rooms && HoldsSteam(s.rooms[join.session], join.steam)
    ensures var c := FindSteam(s.rooms[join.session], join.steam);
            && Has(s, c) && s.index[c] == join.session && ControlsSuperseded(s, join) == {PeerOf(s, c).control}
            && forall d :: Superseded(s, join, d) <==> d == c
  {
    var room := s.rooms[join.session];
    var c := FindSteam(room, join.steam);
    RoomOf(s, join.session);
    RoomMember(s, join.session, c);
    forall d ensures Superseded(s, join, d) <==> d == c {
      RoomMember(s, join.session, d);
      hide Valid;
    }
    hide Valid, Superseded;
  }

  lemma SupersededIsNobody(s: State, join: Pending)
    requires Valid(s) && !(join.session in s.rooms && HoldsSteam(s.rooms[join.session], join.steam))
    ensures ControlsSuperseded(s, join) == {} && forall d :: !Superseded(s, join, d)
  {
    forall d ensures !Superseded(s, join, d) {
      if Superseded(s, join, d) { RoomMember(s, join.session, d); assert false; }
    }
    hide Valid, Superseded;
  }

  // ---- Cleaning up ----

  /** The connection's time to be resumed is over. */
  ghost predicate Overdue(s: State, c: ConnectionId, now: Instant) {
    Has(s, c) && PeerOf(s, c).detachedUntil.Some? && PeerOf(s, c).detachedUntil.value <= now
  }

  /** Nobody is in the session but connections whose time is over, and it was not used for the idle time. */
  ghost predicate LeftBehind(s: State, k: Key, now: Instant) {
    && k in s.rooms && (now - s.rooms[k].lastSeen >= s.config.roomIdle || s.config.roomIdle == 0)
    && OnlyOverdue(s, k, now)
  }

  ghost predicate OnlyOverdue(s: State, k: Key, now: Instant) {
    forall c :: Has(s, c) && s.index[c] == k ==> Overdue(s, c, now)
  }

  /** Cleanup removes exactly the connections whose time is over, and exactly the sessions left behind. */
  lemma CleanupRemovesExactly(s: State, now: Instant)
    requires Valid(s)
    ensures var s' := Cleanup(s, now);
            && (forall c :: Has(s', c) <==> Has(s, c) && !Overdue(s, c, now))
            && (forall c :: Has(s', c) ==> s'.index[c] == s.index[c] && PeerOf(s', c) == PeerOf(s, c))
            && (forall k :: k in s'.rooms <==> k in s.rooms && !LeftBehind(s, k, now))
  {
    CleanupIsExact(s, now);
    hide Cleanup, Valid, Exhausted, OnlyOverdue;
    assert forall c :: Has(s, c) ==> (Overdue(s, c, now) <==> ExpiredAt(PeerOf(s, c), now));
    hide Has, PeerOf, Overdue, ExpiredAt;
    forall k | k in s.rooms
      ensures LeftBehind(s, k, now) <==>
                Exhausted(s.rooms[k], now) && Since(now, s.rooms[k].lastSeen) >= s.config.roomIdle
    {
      ExhaustedIsOverdue(s, k, now);
    }
    hide LeftBehind;
  }

  lemma ExhaustedIsOverdue(s: State, k: Key, now: Instant)
    requires Valid(s) && k in s.rooms
    ensures Exhausted(s.rooms[k], now) <==> OnlyOverdue(s, k, now)
  {
    forall c
      ensures c in s.rooms[k].peers <==> Has(s, c) && s.index[c] == k
      ensures c in s.rooms[k].peers ==> (ExpiredAt(s.rooms[k].peers[c], now) <==> Overdue(s, c, now))
    {
      RoomMember(s, k, c);
      hide Valid;
    }
    hide Valid, Has, ExpiredAt, Overdue;
  }

  /** For each removed connection the connected peers of its session are told, if there are any. */
  lemma CleanupTellsExactly(s: State, now: Instant, n: Notice)
    requires Valid(s)
    ensures n in CleanupBroadcasts(s, ExpiredConnections(s, now)) <==>
              && Overdue(s, n.gone, now) && n.recipients != {}
              && forall r :: r in n.recipients <==> Listens(s, s.index[n.gone], None, r)
  {
    assert n.gone in ExpiredConnections(s, now) <==> Overdue(s, n.gone, now);
    if Overdue(s, n.gone, now) {
      var k := s.index[n.gone];
      var told := Recipients(s.rooms[k], None);
      RecipientsListen(s, k, told);
      hide Valid, Recipients, Listens, Overdue, ExpiredConnections;
      if forall r :: r in n.recipients <==> Listens(s, k, None, r) {
        assert n.recipients == told;
      }
    } else {
      hide Valid, Recipients, Listens, Overdue, ExpiredConnections;
    }
  }

  lemma RecipientsListen(s: State, k: Key, told: Broadcast)
    requires Valid(s) && k in s.rooms && told == Recipients(s.rooms[k], None)
    ensures forall r :: r in told <==> Listens(s, k, None, r)
  {
    forall r: Recipient
      ensures r in told <==> Listens(s, k, None, r)
    {
      RoomMember(s, k, r.connection);
      hide Valid;
    }
  }

  /** Besides the peers and rooms, cleanup drops exactly the challenges issued thirty seconds ago or earlier and the
      control peers of the removed connections; times of last contact stay. */
  lemma CleanupOfTheRest(s: State, now: Instant)
    requires Valid(s)
    ensures var s' := Cleanup(s, now);
            && (forall p :: p in s'.pending <==> p in s.pending && now - s.pending[p].issuedAt < 30 * SECONDS)
            && (forall p :: p in s'.pending ==> s'.pending[p] == s.pending[p])
            && (forall k :: k in s'.rooms ==> k in s.rooms && s'.rooms[k].lastSeen == s.rooms[k].lastSeen)
            && (forall x :: x in s'.controls <==>
                  x in s.controls && !exists d :: Overdue(s, d, now) && PeerOf(s, d).control == x)
            && (forall x :: x in s'.controls ==> s'.controls[x] == s.controls[x])
  {
    var gone := ExpiredConnections(s, now);
    forall x
      ensures x in ControlsOf(s, gone) <==> exists d :: Overdue(s, d, now) && PeerOf(s, d).control == x
    {
      if d :| Overdue(s, d, now) && PeerOf(s, d).control == x { assert d in gone; }
    }
    hide Valid, Has, PeerOf, Pruned, ExpiredConnections, ControlsOf, Overdue;
  }

  // ---- Routing ----

  function Least(a: int, b: int): int { if a <= b then a else b }

  /** The sender exists and used its own identity and transport. */
  ghost predicate Authentic(s: State, r: Request) {
    && Has(s, r.connection) && PeerOf(s, r.connection).steam == r.fromSteam
    && OwnSource(PeerOf(s, r.connection), r.source)
  }

  /** The id lies more than the window's width behind the highest one seen. */
  predicate OutOfWindow(w: Window, id: u64) { w.highest.Some? && w.highest.value - id >= 128 }

  /** The id lies in the window and its bit is set. */
  predicate InWindowAndSeen(w: Window, id: u64) {
    w.highest.Some? && 0 <= w.highest.value - id < 128 && w.seen[w.highest.value - id]
  }

  /** The current window of the traffic budget, a new one if a second has passed. */
  function PacketsUsed(b: Budget, now: Instant): nat { if now - b.windowStarted >= SECONDS then 0 else b.packets }

  function BytesUsed(b: Budget, now: Instant): nat { if now - b.windowStarted >= SECONDS then 0 else b.bytes }

  function ProbesUsed(b: Budget, now: Instant): nat { if now - b.probeWindowStarted >= SECONDS then 0 else b.probes }

  /** One more frame keeps within the packet limit and the burst, and within the rate unless it is the first. */
  predicate Affordable(b: Budget, config: Config, frameBytes: u64, now: Instant) {
    && Least(PacketsUsed(b, now) + 1, 0xFFFF_FFFF) <= config.packetLimit
    && Least(BytesUsed(b, now) + frameBytes, U64_MAX) <= config.byteBurstLimit
    && (BytesUsed(b, now) > 0 ==> Least(BytesUsed(b, now) + frameBytes, U64_MAX) <= config.byteRateLimit)
  }

  /** Fewer than ten probes in the current probe window. */
  predicate ProbeAffordable(b: Budget, now: Instant) { ProbesUsed(b, now) < 10 }

  /** Bit three of the capabilities. */
  predicate MayProbe(capabilities: u64) { capabilities % 16 >= 8 }

  /** The peer's transport reaches it now. */
  predicate Reachable(p: Peer) {
    (p.profile == Tcp && p.presence == Connected) || (p.profile == Udp && p.udpAddress.Some?)
  }

  /** The peer of the sender's session with the target's SteamID64. */
  ghost predicate Target(s: State, r: Request, t: ConnectionId) { Has(s, t) && SameTarget(s, r, t) }

  lemma AffordableIsExact(b: Budget, config: Config, frameBytes: u64, now: Instant)
    ensures var (b', allowed) := CheckTraffic(b, config, frameBytes, now);
            && (allowed <==> Affordable(b, config, frameBytes, now))
            && b'.windowStarted == (if now - b.windowStarted >= SECONDS then now else b.windowStarted)
            && b'.packets == (if allowed then Least(PacketsUsed(b, now) + 1, 0xFFFF_FFFF) else PacketsUsed(b, now))
            && b'.bytes == (if allowed then Least(BytesUsed(b, now) + frameBytes, U64_MAX) else BytesUsed(b, now))
            && b'.probeWindowStarted == b.probeWindowStarted && b'.probes == b.probes
  {
  }

  lemma ProbeAffordableIsExact(b: Budget, now: Instant)
    ensures var (b', allowed) := CheckProbe(b, now);
            && (allowed <==> ProbeAffordable(b, now))
            && b'.probeWindowStarted == (if now - b.probeWindowStarted >= SECONDS then now else b.probeWindowStarted)
            && b'.probes == ProbesUsed(b, now) + (if allowed then 1 else 0)
            && b'.windowStarted == b.windowStarted && b'.packets == b.packets && b'.bytes == b.bytes
  {
  }

  lemma WindowIsExact(w: Window, id: u64)
    ensures Observe(w, id).1.TooOld? <==> OutOfWindow(w, id)
    ensures Observe(w, id).1.Duplicate? <==> InWindowAndSeen(w, id)
  {
    if w.highest.Some? && 0 <= w.highest.value - id < 128 { MaskTest(w.seen, w.highest.value - id); }
    hide And, Or, ShiftLeft;
  }

  lemma SourceIsExact(p: Peer, fromSteam: SteamId, source: Source)
    ensures SourceError(p, fromSteam, source) ==
              if p.steam != fromSteam then Some(SenderMismatch)
              else if OwnSource(p, source) then None
              else if p.profile == Udp && source.FromUdp? then Some(PathNotValidated) else Some(ProfileMismatch)
  {
  }

  lemma MayProbeIsExact(capabilities: u64)
    ensures CanProbe(capabilities) <==> MayProbe(capabilities)
  {
  }

  /** What the look-up of a target answers, by the one peer that has the SteamID64. */
  lemma TargetIsExact(room: Room, toSteam: SteamId, probing: bool)
    requires OnePerSteam(room)
    ensures var answer := TargetDestination(room, toSteam, probing);
            && ((forall t :: t in room.peers ==> room.peers[t].steam != toSteam) ==> answer == Err(TargetNotJoined))
            && (forall t :: t in room.peers && room.peers[t].steam == toSteam ==>
                  if probing && !MayProbe(room.peers[t].capabilities) then answer == Err(ProbeUnsupported)
                  else if Reachable(room.peers[t]) then answer.Ok? && ReachedAt(room.peers[t], answer.value)
                  else answer == Err(TargetUnavailable))
  {
    forall t | t in room.peers && room.peers[t].steam == toSteam
      ensures FindSteam(room, toSteam) == t
    {
    }
    if HoldsSteam(room, toSteam) { MayProbeIsExact(room.peers[FindSteam(room, toSteam)].capabilities); }
    hide CanProbe, MayProbe;
  }

  /** The look-up after the sender's record was touched, told of the state before. */
  ghost predicate Answers(s: State, r: Request, probing: bool, answer: Result<Destination, StateError>) {
    && ((forall t :: !Target(s, r, t)) ==> answer == Err(TargetNotJoined))
    && (forall t :: Target(s, r, t) ==>
          if probing && !MayProbe(PeerOf(s, t).capabilities) then answer == Err(ProbeUnsupported)
          else if Reachable(PeerOf(s, t)) then answer.Ok? && ReachedAt(PeerOf(s, t), answer.value)
          else answer == Err(TargetUnavailable))
  }

  lemma LookupAnswers(s: State, r: Request, p: Peer, probing: bool)
    requires Valid(s) && Has(s, r.connection) && Sender(PeerOf(s, r.connection), p)
    ensures var k := s.index[r.connection];
            Answers(s, r, probing,
                    TargetDestination(Room(s.rooms[k].peers[r.connection := p], r.now), r.toSteam, probing))
  {
    var c, k := r.connection, s.index[r.connection];
    var room := s.rooms[k];
    var room' := Room(room.peers[c := p], r.now);
    assert room.peers[c] == PeerOf(s, c);
    RoomOf(s, k);
    hide Valid, Target, Has, PeerOf, RoomIndexed, Answers, TargetDestination;
    TargetMembers(s, r);
    SenderKeepsRoom(room, c, p, r.now);
    TargetIsExact(room', r.toSteam, probing);
    AnswersByRoom(s, r, probing, room, room', TargetDestination(room', r.toSteam, probing));
  }

  /** The targets are the members of the sender's room with the SteamID64. */
  lemma TargetMembers(s: State, r: Request)
    requires Valid(s) && Has(s, r.connection)
    ensures var room := s.rooms[s.index[r.connection]];
            && (forall t :: Target(s, r, t) <==> t in room.peers && room.peers[t].steam == r.toSteam)
            && (forall t :: Target(s, r, t) ==> PeerOf(s, t) == room.peers[t])
  {
    var k := s.index[r.connection];
    forall t
      ensures Target(s, r, t) <==> t in s.rooms[k].peers && s.rooms[k].peers[t].steam == r.toSteam
      ensures Target(s, r, t) ==> PeerOf(s, t) == s.rooms[k].peers[t]
    {
      RoomMember(s, k, t);
      hide Valid;
    }
    hide Valid, Target;
  }

  lemma SenderKeepsRoom(room: Room, c: ConnectionId, p: Peer, now: Instant)
    requires OnePerSteam(room) && c in room.peers && Sender(room.peers[c], p)
    ensures var room' := Room(room.peers[c := p], now);
            && OnePerSteam(room') && room'.peers.Keys == room.peers.Keys
            && (forall t :: t in room.peers ==> Sender(room.peers[t], room'.peers[t]))
  {
  }

  lemma AnswersByRoom(s: State, r: Request, probing: bool, room: Room, room': Room,
                      answer: Result<Destination, StateError>)
    requires forall t :: Target(s, r, t) <==> t in room.peers && room.peers[t].steam == r.toSteam
    requires forall t :: Target(s, r, t) ==> PeerOf(s, t) == room.peers[t]
    requires room'.peers.Keys == room.peers.Keys
    requires forall t :: t in room.peers ==> Sender(room.peers[t], room'.peers[t])
    requires (forall t :: t in room'.peers ==> room'.peers[t].steam != r.toSteam) ==> answer == Err(TargetNotJoined)
    requires forall t :: t in room'.peers && room'.peers[t].steam == r.toSteam ==>
               if probing && !MayProbe(room'.peers[t].capabilities) then answer == Err(ProbeUnsupported)
               else if Reachable(room'.peers[t]) then answer.Ok? && ReachedAt(room'.peers[t], answer.value)
               else answer == Err(TargetUnavailable)
    ensures Answers(s, r, probing, answer)
  {
    hide PeerOf, MayProbe, Has, SameTarget;
    forall t | Target(s, r, t)
      ensures if probing && !MayProbe(PeerOf(s, t).capabilities) then answer == Err(ProbeUnsupported)
              else if Reachable(PeerOf(s, t)) then answer.Ok? && ReachedAt(PeerOf(s, t), answer.value)
              else answer == Err(TargetUnavailable)
    {
      assert t in room'.peers.Keys && Sender(room.peers[t], room'.peers[t]);
      if answer.Ok? && ReachedAt(room'.peers[t], answer.value) {
        ReachedStill(room.peers[t], room'.peers[t], answer.value);
      }
    }
    if forall t :: !Target(s, r, t) {
      forall t | t in room'.peers ensures room'.peers[t].steam != r.toSteam {
        assert t in room.peers.Keys && Sender(room.peers[t], room'.peers[t]);
      }
    }
  }

  // ---- Routing a data frame ----

  /** Why a data frame is not delivered. */
  ghost function DataFault(s: State, r: Request): StateError {
    if !Has(s, r.connection) then UnknownConnection
    else
      var p := PeerOf(s, r.connection);
      if p.steam != r.fromSteam then SenderMismatch
      else if !OwnSource(p, r.source) then
        if p.profile == Udp && r.source.FromUdp? then PathNotValidated else ProfileMismatch
      else if OutOfWindow(p.frames, r.frameId) then FrameTooOld
      else if InWindowAndSeen(p.frames, r.frameId) then DuplicateFrame
      else if !Affordable(p.budget, s.config, r.frameBytes, r.now) then RateLimited
      else if forall t :: !Target(s, r, t) then TargetNotJoined else TargetUnavailable
  }

  /** Everything that must hold of the sender. */
  ghost predicate MaySend(s: State, r: Request) {
    && Authentic(s, r)
    && var p := PeerOf(s, r.connection);
       && !OutOfWindow(p.frames, r.frameId) && !InWindowAndSeen(p.frames, r.frameId)
       && Affordable(p.budget, s.config, r.frameBytes, r.now)
  }

  /** A data frame is delivered if and only if its sender is authentic, its id new to the window, one more frame
      affordable, and the one peer of the session with the target's SteamID64 reachable; it goes there. Otherwise the
      error is that of the first of these to fail. */
  lemma RouteDataIsExact(s: State, r: Request)
    requires Valid(s)
    ensures var answer := RouteData(s, r).1;
            && (answer.Ok? <==> MaySend(s, r) && exists t :: Target(s, r, t) && Reachable(PeerOf(s, t)))
            && (answer.Ok? ==> exists t :: Target(s, r, t) && ReachedAt(PeerOf(s, t), answer.value))
            && (answer.Err? ==> answer.error == DataFault(s, r))
  {
    if Has(s, r.connection) {
      var p := PeerOf(s, r.connection);
      SourceIsExact(p, r.fromSteam, r.source);
      WindowIsExact(p.frames, r.frameId);
      AffordableIsExact(p.budget, s.config, r.frameBytes, r.now);
      var p' := p.(frames := Observe(p.frames, r.frameId).0,
                   budget := CheckTraffic(p.budget, s.config, r.frameBytes, r.now).0, lastSeen := r.now);
      LookupAnswers(s, r, p', false);
      TargetIsOne(s, r);
      hide Valid, Observe, CheckTraffic, SourceError, TargetDestination, OwnSource, Affordable;
      hide OutOfWindow, InWindowAndSeen, Target, ReachedAt, Reachable, MayProbe;
    }
  }

  lemma TargetIsOne(s: State, r: Request)
    requires Valid(s)
    ensures forall t, u :: Target(s, r, t) && Target(s, r, u) ==> t == u
  {
    forall t, u | Target(s, r, t) && Target(s, r, u)
      ensures t == u
    {
      var k := s.index[t];
      RoomOf(s, k);
      RoomMember(s, k, t);
      RoomMember(s, k, u);
      hide Valid, RoomIndexed;
    }
  }

  /** What routing a data frame changes: nothing if the sender is not authentic or the window refuses; otherwise the
      sender's window and budget, and once affordable its and its room's time of last contact. */
  lemma RouteDataEffect(s: State, r: Request)
    requires Valid(s)
    ensures var s' := RouteData(s, r).0;
            if Authentic(s, r) && !OutOfWindow(PeerOf(s, r.connection).frames, r.frameId)
               && !InWindowAndSeen(PeerOf(s, r.connection).frames, r.frameId)
            then SenderTouched(s, s', r, Observe(PeerOf(s, r.connection).frames, r.frameId).0,
                               Affordable(PeerOf(s, r.connection).budget, s.config, r.frameBytes, r.now))
                 && PeerOf(s', r.connection).budget.probes == PeerOf(s, r.connection).budget.probes
            else s' == s
  {
    if Has(s, r.connection) {
      var p := PeerOf(s, r.connection);
      SourceIsExact(p, r.fromSteam, r.source);
      WindowIsExact(p.frames, r.frameId);
      AffordableIsExact(p.budget, s.config, r.frameBytes, r.now);
      hide Valid, Observe, CheckTraffic, SourceError, TargetDestination, OwnSource, Affordable;
      hide OutOfWindow, InWindowAndSeen;
      if SourceError(p, r.fromSteam, r.source).None? {
        var p' := p.(frames := Observe(p.frames, r.frameId).0,
                     budget := CheckTraffic(p.budget, s.config, r.frameBytes, r.now).0);
        PutKeepsOthers(s, r.connection, p', s.rooms[s.index[r.connection]].lastSeen);
        PutKeepsOthers(s, r.connection, p'.(lastSeen := r.now), r.now);
        hide OthersKept, Stamped;
      }
    }
  }

  /** The sender's record after it was charged; `seen` says whether it and its room were marked as seen. */
  ghost predicate SenderTouched(s: State, s': State, r: Request, frames: Window, seen: bool)
    requires Has(s, r.connection)
  {
    var c, p, k := r.connection, PeerOf(s, r.connection), s.index[r.connection];
    && Has(s', c) && OthersKept(s, s', c) && s'.index == s.index && s'.controls == s.controls && s'.pending == s.pending
    && Stamped(s, s', k, if seen then r.now else s.rooms[k].lastSeen)
    && var p' := PeerOf(s', c);
       && p' == p.(frames := frames, budget := p'.budget, lastSeen := if seen then r.now else p.lastSeen)
       && p'.budget.windowStarted ==
          (if r.now - p.budget.windowStarted >= SECONDS then r.now else p.budget.windowStarted)
       && p'.budget.packets == (if seen then Least(PacketsUsed(p.budget, r.now) + 1, 0xFFFF_FFFF)
                                else PacketsUsed(p.budget, r.now))
       && p'.budget.bytes == (if seen then Least(BytesUsed(p.budget, r.now) + r.frameBytes, U64_MAX)
                              else BytesUsed(p.budget, r.now))
  }

  // ---- Routing a probe ----

  /** Why a probe is not delivered. */
  ghost function ProbeFault(s: State, r: Request): StateError {
    if !Has(s, r.connection) then UnknownConnection
    else
      var p := PeerOf(s, r.connection);
      if p.steam != r.fromSteam then SenderMismatch
      else if !OwnSource(p, r.source) then
        if p.profile == Udp && r.source.FromUdp? then PathNotValidated else ProfileMismatch
      else if !MayProbe(p.capabilities) then ProbeUnsupported
      else if !Affordable(p.budget, s.config, r.frameBytes, r.now) then RateLimited
      else if !ProbeAffordable(p.budget, r.now) then ProbeRateLimited
      else if forall t :: !Target(s, r, t) then TargetNotJoined
      else if exists t :: Target(s, r, t) && MayProbe(PeerOf(s, t).capabilities) then TargetUnavailable
      else ProbeUnsupported
  }

  ghost predicate MaySendProbe(s: State, r: Request) {
    && Authentic(s, r)
    && var p := PeerOf(s, r.connection);
       && MayProbe(p.capabilities) && Affordable(p.budget, s.config, r.frameBytes, r.now)
       && ProbeAffordable(p.budget, r.now)
  }

  /** The order in which a probe is judged. */
  lemma ProbeIsJudged(s: State, r: Request)
    requires Has(s, r.connection)
    ensures var p, k := PeerOf(s, r.connection), s.index[r.connection];
            var (b, allowed) := CheckTraffic(p.budget, s.config, r.frameBytes, r.now);
            var (b', probeAllowed) := CheckProbe(b, r.now);
            var source, seen := SourceError(p, r.fromSteam, r.source), s.rooms[k].lastSeen;
            RouteProbe(s, r) ==
            if source.Some? then (s, Err(source.value))
            else if !CanProbe(p.capabilities) then (s, Err(ProbeUnsupported))
            else if !allowed then (PutPeer(s, k, r.connection, p.(budget := b), seen), Err(RateLimited))
            else if !probeAllowed then (PutPeer(s, k, r.connection, p.(budget := b'), seen), Err(ProbeRateLimited))
            else
              var p' := p.(budget := b', lastSeen := r.now);
              (PutPeer(s, k, r.connection, p', r.now),
               TargetDestination(Room(s.rooms[k].peers[r.connection := p'], r.now), r.toSteam, true))
  {
    hide CheckTraffic, CheckProbe, SourceError, TargetDestination, CanProbe;
  }

  lemma ProbeBudgetsAreSeparate(b: Budget, config: Config, frameBytes: u64, now: Instant)
    ensures var b' := CheckTraffic(b, config, frameBytes, now).0;
            && (ProbeAffordable(b', now) <==> ProbeAffordable(b, now)) && ProbesUsed(b', now) == ProbesUsed(b, now)
  {
    AffordableIsExact(b, config, frameBytes, now);
    hide CheckTraffic;
  }

  /** The same for a probe, which both ends must be able to make, and of which there are ten a second. */
  lemma RouteProbeIsExact(s: State, r: Request)
    requires Valid(s)
    ensures var answer := RouteProbe(s, r).1;
            && (answer.Ok? <==>
                  && MaySendProbe(s, r)
                  && exists t :: Target(s, r, t) && MayProbe(PeerOf(s, t).capabilities) && Reachable(PeerOf(s, t)))
            && (answer.Ok? ==> exists t :: Target(s, r, t) && ReachedAt(PeerOf(s, t), answer.value))
            && (answer.Err? ==> answer.error == ProbeFault(s, r))
  {
    if !Has(s, r.connection) {
      hide Valid, CheckTraffic, CheckProbe, SourceError, TargetDestination, Target;
    } else {
      var p := PeerOf(s, r.connection);
      var b := CheckTraffic(p.budget, s.config, r.frameBytes, r.now).0;
      var p' := p.(budget := CheckProbe(b, r.now).0, lastSeen := r.now);
      hide Valid, CheckTraffic, CheckProbe, SourceError, TargetDestination, OwnSource, Affordable, ProbeAffordable;
      hide Target, ReachedAt, Reachable, MayProbe, CanProbe, RouteProbe, PutPeer;
      ProbeIsJudged(s, r);
      SourceIsExact(p, r.fromSteam, r.source);
      MayProbeIsExact(p.capabilities);
      AffordableIsExact(p.budget, s.config, r.frameBytes, r.now);
      ProbeAffordableIsExact(b, r.now);
      ProbeBudgetsAreSeparate(p.budget, s.config, r.frameBytes, r.now);
      LookupAnswers(s, r, p', true);
      TargetIsOne(s, r);
      if MaySendProbe(s, r) { ProbeLookup(s, r, RouteProbe(s, r).1); }
    }
  }

  lemma ProbeLookup(s: State, r: Request, answer: Result<Destination, StateError>)
    requires MaySendProbe(s, r) && Answers(s, r, true, answer)
    requires forall t, u :: Target(s, r, t) && Target(s, r, u) ==> t == u
    ensures answer.Ok? <==>
              exists t :: Target(s, r, t) && MayProbe(PeerOf(s, t).capabilities) && Reachable(PeerOf(s, t))
    ensures answer.Ok? ==> exists t :: Target(s, r, t) && ReachedAt(PeerOf(s, t), answer.value)
    ensures answer.Err? ==> answer.error == ProbeFault(s, r)
  {
    hide Has, PeerOf, Target, ReachedAt, Reachable, MayProbe, OwnSource, Affordable, ProbeAffordable;
  }

  /** What routing a probe changes: never the window; the budgets as far as it got. */
  lemma RouteProbeEffect(s: State, r: Request)
    requires Valid(s)
    ensures var s' := RouteProbe(s, r).0;
            if Authentic(s, r) && MayProbe(PeerOf(s, r.connection).capabilities) then
              var p := PeerOf(s, r.connection);
              var paid := Affordable(p.budget, s.config, r.frameBytes, r.now);
              var seen := paid && ProbeAffordable(p.budget, r.now);
              && Has(s', r.connection) && OthersKept(s, s', r.connection)
              && s'.index == s.index && s'.controls == s.controls && s'.pending == s.pending
              && Stamped(s, s', s.index[r.connection], if seen then r.now else s.rooms[s.index[r.connection]].lastSeen)
              && ProbeCharged(p, PeerOf(s', r.connection), r, paid, seen)
            else s' == s
  {
    if Has(s, r.connection) {
      var p := PeerOf(s, r.connection);
      SourceIsExact(p, r.fromSteam, r.source);
      MayProbeIsExact(p.capabilities);
      AffordableIsExact(p.budget, s.config, r.frameBytes, r.now);
      var b := CheckTraffic(p.budget, s.config, r.frameBytes, r.now).0;
      ProbeAffordableIsExact(b, r.now);
      ProbeBudgetsAreSeparate(p.budget, s.config, r.frameBytes, r.now);
      ProbeIsJudged(s, r);
      hide Valid, CheckTraffic, CheckProbe, SourceError, TargetDestination, OwnSource, Affordable, ProbeAffordable;
      hide MayProbe, CanProbe, ProbesUsed, PacketsUsed, BytesUsed, RouteProbe;
      hide OthersKept, Stamped, PutPeer, Has;
      var seen := s.rooms[s.index[r.connection]].lastSeen;
      var p2 := p.(budget := CheckProbe(b, r.now).0);
      if !Affordable(p.budget, s.config, r.frameBytes, r.now) {
        PutKeepsOthers(s, r.connection, p.(budget := b), seen);
        PutKeepsMaps(s, r.connection, p.(budget := b), seen);
      } else if !ProbeAffordable(p.budget, r.now) {
        PutKeepsOthers(s, r.connection, p2, seen);
        PutKeepsMaps(s, r.connection, p2, seen);
      } else {
        PutKeepsOthers(s, r.connection, p2.(lastSeen := r.now), r.now);
        PutKeepsMaps(s, r.connection, p2.(lastSeen := r.now), r.now);
      }
    }
  }

  lemma PutKeepsMaps(s: State, c: ConnectionId, p: Peer, now: Instant)
    requires Has(s, c)
    ensures var s' := PutPeer(s, s.index[c], c, p, now);
            s'.index == s.index && s'.controls == s.controls && s'.pending == s.pending
  {
  }

  /** `paid`: the traffic budget let it through; `seen`: so did the probe budget. */
  ghost predicate ProbeCharged(p: Peer, p': Peer, r: Request, paid: bool, seen: bool) {
    && p' == p.(budget := p'.budget, lastSeen := if seen then r.now else p.lastSeen)
    && p'.budget.windowStarted == (if r.now - p.budget.windowStarted >= SECONDS then r.now else p.budget.windowStarted)
    && p'.budget.packets == (if paid then Least(PacketsUsed(p.budget, r.now) + 1, 0xFFFF_FFFF)
                             else PacketsUsed(p.budget, r.now))
    && p'.budget.bytes == (if paid then Least(BytesUsed(p.budget, r.now) + r.frameBytes, U64_MAX)
                           else BytesUsed(p.budget, r.now))
    && p'.budget.probes == (if !paid then p.budget.probes
                            else ProbesUsed(p.budget, r.now) + if seen then 1 else 0)
    && p'.budget.probeWindowStarted ==
       (if paid && r.now - p.budget.probeWindowStarted >= SECONDS then r.now else p.budget.probeWindowStarted)
  }
}
