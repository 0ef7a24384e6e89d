/** Control peers: when a connected peer's control id leads back to its own connection, so that no
    broadcast reaches one control peer twice. */
module RelayControl {
  import opened Prelude
  import opened FrameWindow
  import opened RelayModel
  import opened RelayInvariant
  import opened RelayLife

  /** No two connections name the same control peer. */
  ghost predicate Unshared(s: State) {
    forall c, d :: Has(s, c) && Has(s, d) && PeerOf(s, c).control == PeerOf(s, d).control ==> c == d
  }

  /** Every connected peer's control id is mapped back to its connection. */
  ghost predicate Mapped(s: State) {
    forall c :: Has(s, c) && PeerOf(s, c).presence == Connected ==>
      PeerOf(s, c).control in s.controls && s.controls[PeerOf(s, c).control] == c
  }

  /** No peer awaiting recovery is still reached through its control id. */
  ghost predicate Dropped(s: State) {
    forall c :: Has(s, c) && PeerOf(s, c).presence == Reconnecting ==> PeerOf(s, c).control !in s.controls
  }

  ghost predicate Sound(s: State) { Unshared(s) && Mapped(s) && Dropped(s) }

  /** The event attaches its control peer to a connection, by joining or by resuming. */
  ghost predicate Establishes(s: State, e: Event) {
    Admits(s, e) || (e.ResumeEvent? && ResumeError(s, e.connection, e.key, e.now).None?)
  }

  /** The connection ends or is taken over by the event: the same SteamID64 joining again, or the one resumed. */
  ghost predicate TakenOver(s: State, e: Event, d: ConnectionId)
    requires Establishes(s, e) && Has(s, d)
  {
    match e
    case CompleteJoinEvent(control, _, _, _) =>
      s.index[d] == s.pending[control].session && PeerOf(s, d).steam == s.pending[control].steam
    case ResumeEvent(_, c, _, _) => d == c
    case _ => false
  }

  /** Some other connection already names the control peer. */
  ghost predicate HeldElsewhere(s: State, e: Event)
    requires Establishes(s, e)
  {
    exists d :: Has(s, d) && PeerOf(s, d).control == e.control && !TakenOver(s, e, d)
  }

  lemma RemoveConnectionKeepsSound(s: State, c: ConnectionId)
    requires Valid(s) && Sound(s)
    ensures Sound(RemoveConnection(s, c).0)
    ensures forall d :: Has(RemoveConnection(s, c).0, d) <==> Has(s, d) && d != c
    ensures forall d :: Has(s, d) && d != c ==> PeerOf(RemoveConnection(s, c).0, d) == PeerOf(s, d)
  {
    hide Valid, Has, PeerOf, RemoveConnection;
    HasEveryIndexed(s, c);
    RemoveAllFacts(s, c);
    RemovedStaysSound(s, RemoveConnection(s, c).0, c);
  }

  lemma RemovedStaysSound(s: State, s': State, c: ConnectionId)
    requires Sound(s)
    requires forall d :: Has(s', d) <==> Has(s, d) && d != c
    requires forall d :: Has(s, d) && d != c ==> PeerOf(s', d) == PeerOf(s, d)
    requires s'.controls == if Has(s, c) then s.controls - {PeerOf(s, c).control} else s.controls
    ensures Sound(s')
  {
    hide Has, PeerOf;
    FewerPeersStaySound(s, s');
  }

  lemma SameRooms(s: State, s': State, d: ConnectionId)
    requires s'.rooms == s.rooms && s'.index == s.index
    ensures Has(s', d) <==> Has(s, d)
    ensures Has(s, d) ==> PeerOf(s', d) == PeerOf(s, d)
  {
  }

  lemma SameRoomsAll(s: State, s': State)
    requires s'.rooms == s.rooms && s'.index == s.index
    ensures forall d :: Has(s', d) <==> Has(s, d)
    ensures forall d :: Has(s, d) ==> PeerOf(s', d) == PeerOf(s, d)
  {
    hide Has, PeerOf;
    forall d
      ensures Has(s', d) <==> Has(s, d)
      ensures Has(s, d) ==> PeerOf(s', d) == PeerOf(s, d)
    {
      SameRooms(s, s', d);
    }
  }

  lemma TakenOverIsFound(s: State, e: Event, d: ConnectionId)
    requires Valid(s) && Admits(s, e) && Has(s, d)
    ensures var join := s.pending[e.control];
            TakenOver(s, e, d) <==>
            join.session in s.rooms && HoldsSteam(s.rooms[join.session], join.steam)
            && d == FindSteam(s.rooms[join.session], join.steam)
  {
    var join := s.pending[e.control];
    hide JoinError;
    if join.session in s.rooms {
      var room := s.rooms[join.session];
      assert RoomOk(s.config, room) && RoomIndexed(s.index, join.session, room);
      hide Valid;
      if TakenOver(s, e, d) { assert d in room.peers && room.peers[d].steam == join.steam; }
    }
  }

  lemma VacatedIsRemoved(s: State, e: Event)
    requires Valid(s) && Admits(s, e)
    ensures var s0, join := s.(pending := s.pending - {e.control}), s.pending[e.control];
            Vacated(s, e.control) ==
            if join.session in s.rooms && HoldsSteam(s.rooms[join.session], join.steam)
            then RemoveConnection(s0, FindSteam(s.rooms[join.session], join.steam)).0 else s0
  {
    var join := s.pending[e.control];
    hide JoinError, RemoveConnection;
    if join.session in s.rooms && HoldsSteam(s.rooms[join.session], join.steam) {
      var room := s.rooms[join.session];
      assert RoomOk(s.config, room);
      assert PeerOk(FindSteam(room, join.steam), room.peers[FindSteam(room, join.steam)]);
      hide Valid;
    }
  }

  lemma VacatedPeers(s: State, e: Event)
    requires Valid(s) && Sound(s) && Admits(s, e)
    ensures var s' := Vacated(s, e.control);
            && Valid(s') && Sound(s')
            && (forall d :: Has(s', d) <==> Has(s, d) && !TakenOver(s, e, d))
            && (forall d :: Has(s', d) ==> PeerOf(s', d) == PeerOf(s, d))
  {
    var s0, join := s.(pending := s.pending - {e.control}), s.pending[e.control];
    assert Valid(s0);
    hide Valid, Has, PeerOf, TakenOver, RemoveConnection;
    VacatedIsRemoved(s, e);
    RemoveDuplicateKeepsValid(s0, join.session, join.steam);
    SameRoomsAll(s, s0);
    forall d | Has(s, d) { TakenOverIsFound(s, e, d); }
    SamePeersStaySound(s, s0);
    assert Vacated(s, e.control) == RemoveDuplicate(s0, join.session, join.steam);
    hide Vacated, RemoveDuplicate, Admits;
    if join.session in s.rooms && HoldsSteam(s.rooms[join.session], join.steam) {
      RemoveConnectionKeepsSound(s0, FindSteam(s.rooms[join.session], join.steam));
    }
  }

  /** `s'` is `s` with connection `c` attached to `control` and every other peer as it was. */
  ghost predicate Attached(s: State, s': State, c: ConnectionId, control: PeerId) {
    && Has(s', c) && PeerOf(s', c).control == control && PeerOf(s', c).presence == Connected
    && s'.controls == s.controls[control := c]
    && (forall d :: d != c ==> (Has(s', d) <==> Has(s, d)))
    && (forall d :: d != c && Has(s, d) ==> PeerOf(s', d) == PeerOf(s, d))
  }

  lemma ResumeAttaches(s: State, e: Event)
    requires Valid(s) && e.ResumeEvent? && Establishes(s, e)
    ensures Attached(s, Step(s, e), e.connection, e.control)
  {
    var c, s' := e.connection, Step(s, e);
    var p := PeerOf(s, c).(control := e.control, presence := Connected, detachedUntil := None, lastSeen := e.now);
    var s1 := PutPeer(s, s.index[c], c, p, e.now);
    assert s' == s1.(controls := s.controls[e.control := c]) by { hide BroadcastTo, Valid; }
    hide Valid, Step, Has, PeerOf, PutPeer, ResumeError;
    PutAllFacts(s, c, p, e.now);
    SameRoomsAll(s1, s');
  }

  lemma AdmitOthers(s: State, join: Pending, control: PeerId, draw: Draw, now: Instant, d: ConnectionId)
    requires Valid(s) && draw.connection !in s.index && d != draw.connection
    ensures var s' := Admit(s, join, control, draw, now);
            (Has(s', d) <==> Has(s, d)) && (Has(s, d) ==> PeerOf(s', d) == PeerOf(s, d))
  {
    HasEveryIndexed(s, d);
    hide Valid;
    if Has(s, d) { AdmitFacts(s, join, control, draw, now, d); }
  }

  lemma AdmitAttaches(s: State, join: Pending, control: PeerId, draw: Draw, now: Instant)
    requires Valid(s) && draw.connection !in s.index
    ensures Attached(s, Admit(s, join, control, draw, now), draw.connection, control)
  {
    var s', c := Admit(s, join, control, draw, now), draw.connection;
    assert s'.controls == s.controls[control := c];
    assert Has(s', c) && PeerOf(s', c) == NewPeer(join, control, draw, now) by { hide Valid; }
    hide Valid, Admit, Has, PeerOf;
    forall d | d != c
      ensures Has(s', d) <==> Has(s, d)
      ensures Has(s, d) ==> PeerOf(s', d) == PeerOf(s, d)
    {
      AdmitOthers(s, join, control, draw, now, d);
    }
  }

  lemma AdmissionAttaches(s: State, e: Event)
    requires Valid(s) && Sound(s) && Legal(s, e) && Admits(s, e)
    ensures Attached(Vacated(s, e.control), Step(s, e), e.draw.connection, e.control)
  {
    assert Step(s, e) == Admit(Vacated(s, e.control), s.pending[e.control], e.control, e.draw, e.now) by {
      hide Valid, Sound, Vacated, Admit, BroadcastTo;
    }
    VacatedPeers(s, e);
    hide Valid, Sound, Vacated, Admit, Step, Has, PeerOf, Attached;
    AdmitAttaches(Vacated(s, e.control), s.pending[e.control], e.control, e.draw, e.now);
  }

  lemma AttachedIsSoundIff(s: State, s': State, c: ConnectionId, control: PeerId)
    requires Sound(s) && Attached(s, s', c, control)
    ensures Sound(s') <==> forall d :: d != c && Has(s, d) ==> PeerOf(s, d).control != control
  {
    hide Has, PeerOf;
    if d :| d != c && Has(s, d) && PeerOf(s, d).control == control {
      assert PeerOf(s', d).control == PeerOf(s', c).control;
    }
  }

  /** Joining or resuming keeps control ids sound if and only if the control peer is not already
      named by a connection that stays. */
  lemma EstablishingIsSoundIff(s: State, e: Event)
    requires Valid(s) && Sound(s) && Legal(s, e) && Establishes(s, e)
    ensures Sound(Step(s, e)) <==> !HeldElsewhere(s, e)
  {
    if e.ResumeEvent? {
      hide Valid, Legal, Step, Has, PeerOf, Sound, Attached, Admits, ResumeError;
      ResumeAttaches(s, e);
      AttachedIsSoundIff(s, Step(s, e), e.connection, e.control);
    } else {
      assert e.draw.connection !in Vacated(s, e.control).index;
      hide Valid, Legal, Step, Has, PeerOf, Sound, Attached, Vacated, Admits, TakenOver;
      VacatedPeers(s, e);
      AdmissionAttaches(s, e);
      HasEveryIndexed(Vacated(s, e.control), e.draw.connection);
      AttachedIsSoundIff(Vacated(s, e.control), Step(s, e), e.draw.connection, e.control);
    }
  }

  /** `s'` has no peer that `s` had not, under no other control peer. */
  ghost predicate NoNewControls(s: State, s': State) {
    forall d :: Has(s', d) ==> Has(s, d) && PeerOf(s', d).control == PeerOf(s, d).control
  }

  lemma FewerPeersStaySound(s: State, s': State)
    requires Sound(s) && NoNewControls(s, s')
    requires forall d :: Has(s', d) && PeerOf(s', d).presence == Connected ==>
               && PeerOf(s, d).presence == Connected
               && PeerOf(s, d).control in s'.controls && s'.controls[PeerOf(s, d).control] == d
    requires forall d :: Has(s', d) && PeerOf(s', d).presence == Reconnecting ==> PeerOf(s, d).control !in s'.controls
    ensures Sound(s')
  {
  }

  /** Replacing a record under the same control peer and presence changes nothing that matters here. */
  lemma PutKeepsSound(s: State, d: ConnectionId, p: Peer, lastSeen: Instant)
    requires Sound(s) && Has(s, d) && p.control == PeerOf(s, d).control && p.presence == PeerOf(s, d).presence
    ensures var s' := PutPeer(s, s.index[d], d, p, lastSeen); Sound(s') && NoNewControls(s, s')
  {
    var s' := PutPeer(s, s.index[d], d, p, lastSeen);
    assert s'.controls == s.controls;
    PutAllFacts(s, d, p, lastSeen);
    hide Has, PeerOf, PutPeer;
    FewerPeersStaySound(s, s');
  }

  /** An entry of the control map may go whenever no connected peer is reached through it. */
  lemma DropKeepsSound(s: State, control: PeerId)
    requires Sound(s)
    requires forall c :: Has(s, c) && PeerOf(s, c).control == control ==> PeerOf(s, c).presence == Reconnecting
    ensures var s' := s.(controls := s.controls - {control}); Sound(s') && NoNewControls(s, s')
  {
    var s' := s.(controls := s.controls - {control});
    SameRoomsAll(s, s');
    hide Has, PeerOf;
    FewerPeersStaySound(s, s');
  }

  lemma DetachKeepsSound(s: State, control: PeerId, now: Instant)
    requires Valid(s) && Sound(s)
    ensures Sound(Detach(s, control, now).0) && NoNewControls(s, Detach(s, control, now).0)
  {
    hide Valid, BroadcastTo;
    var s' := Detach(s, control, now).0;
    if control !in s.controls {
      SamePeersStaySound(s, s');
    } else {
      var c := s.controls[control];
      if !Has(s, c) || PeerOf(s, c).control != control || PeerOf(s, c).presence == Reconnecting {
        hide Detach, Has, PeerOf;
        assert s' == s.(controls := s.controls - {control}) by { DetachDrops(s, control, now); }
        DropKeepsSound(s, control);
      } else {
        DetachedKeepsSound(s, control, now);
      }
    }
  }

  lemma DetachDrops(s: State, control: PeerId, now: Instant)
    requires control in s.controls
    requires var c := s.controls[control];
             !Has(s, c) || PeerOf(s, c).control != control || PeerOf(s, c).presence == Reconnecting
    ensures Detach(s, control, now).0 == s.(controls := s.controls - {control})
  {
    hide BroadcastTo, Has;
  }

  lemma DetachedKeepsSound(s: State, control: PeerId, now: Instant)
    requires Sound(s) && control in s.controls && Has(s, s.controls[control])
    requires PeerOf(s, s.controls[control]).control == control && PeerOf(s, s.controls[control]).presence == Connected
    ensures Sound(Detach(s, control, now).0) && NoNewControls(s, Detach(s, control, now).0)
  {
    var c, s' := s.controls[control], Detach(s, control, now).0;
    var p := PeerOf(s, c).(presence := Reconnecting, detachedUntil := Some(now + RECOVERY_GRACE));
    var s1 := PutPeer(s, s.index[c], c, p, s.rooms[s.index[c]].lastSeen);
    assert s' == s1.(controls := s.controls - {control}) by { hide BroadcastTo, Sound; }
    PutAllFacts(s, c, p, s.rooms[s.index[c]].lastSeen);
    SameRoomsAll(s1, s');
    hide Detach, Has, PeerOf, PutPeer;
    FewerPeersStaySound(s, s');
  }

  lemma StopKeepsSound(s: State, control: PeerId)
    requires Valid(s) && Sound(s)
    ensures Sound(Stop(s, control).0) && NoNewControls(s, Stop(s, control).0)
  {
    var s' := Stop(s, control).0;
    if control !in s.controls {
      SamePeersStaySound(s, s');
    } else {
      var c := s.controls[control];
      var s1 := RemoveConnection(s, c).0;
      HasEveryIndexed(s, c);
      StopRemoves(s, control);
      hide Valid, Stop, RemoveConnection, Has, PeerOf;
      RemoveConnectionKeepsSound(s, c);
      RemoveAllFacts(s, c);
      DropKeepsSound(s1, control);
    }
  }

  lemma StopRemoves(s: State, control: PeerId)
    requires control in s.controls
    ensures var s1 := RemoveConnection(s, s.controls[control]).0;
            Stop(s, control).0 == s1.(controls := s1.controls - {control})
  {
    hide BroadcastTo;
    var c, s0 := s.controls[control], s.(controls := s.controls - {control});
    var s1, t := RemoveConnection(s, c).0, RemoveConnection(s0, c).0;
    assert t.controls == s1.controls - {control};
  }

  /** A connected peer shares its control peer with no expired one. */
  lemma ConnectedKeepsControl(s: State, now: Instant, d: ConnectionId)
    requires Unshared(s) && Has(s, d) && !ExpiredAt(PeerOf(s, d), now)
    ensures PeerOf(s, d).control !in ControlsOf(s, ExpiredConnections(s, now))
  {
    hide Has, PeerOf, ExpiredAt;
  }

  lemma CleanupKeepsSound(s: State, now: Instant)
    requires Valid(s) && Sound(s)
    ensures Sound(Cleanup(s, now)) && NoNewControls(s, Cleanup(s, now))
  {
    var s' := Cleanup(s, now);
    assert s'.controls == s.controls - ControlsOf(s, ExpiredConnections(s, now)) by { hide Valid, Sound, Pruned; }
    hide Cleanup, Valid, Has, PeerOf, ExpiredAt, ControlsOf, ExpiredConnections, Exhausted;
    CleanupIsExact(s, now);
    forall d | Has(s', d)
      ensures PeerOf(s, d).control !in ControlsOf(s, ExpiredConnections(s, now))
    {
      ConnectedKeepsControl(s, now, d);
    }
    FewerPeersStaySound(s, s');
  }

  lemma BindKeepsSound(s: State, e: Event)
    requires Sound(s) && e.BindEvent?
    ensures Sound(Step(s, e)) && NoNewControls(s, Step(s, e))
  {
    var d, s' := e.connection, Step(s, e);
    if s' == s {
      hide Step;
      SamePeersStaySound(s, s');
    } else {
      var p := PeerOf(s, d).(udpAddress := Some(e.address), lastSeen := e.now);
      assert s' == PutPeer(s, s.index[d], d, p, s.rooms[s.index[d]].lastSeen) by { hide Sound; }
      assert Has(s, d) by { hide Sound; }
      hide Step, PutPeer, Sound, Has;
      PutKeepsSound(s, d, p, s.rooms[s.index[d]].lastSeen);
    }
  }

  lemma SamePeersStaySound(s: State, s': State)
    requires Sound(s)
    requires s'.rooms == s.rooms && s'.index == s.index && s'.controls == s.controls
    ensures Sound(s') && NoNewControls(s, s')
  {
    SameRoomsAll(s, s');
    hide Has, PeerOf;
    FewerPeersStaySound(s, s');
  }

  lemma RouteKeepsSound(s: State, e: Event)
    requires Sound(s) && IsRoute(e)
    ensures Sound(Step(s, e)) && NoNewControls(s, Step(s, e))
  {
    RoutingTouchesSender(s, e);
    hide Step, Sound, Has, Observe;
    var d, s' := e.request.connection, Step(s, e);
    if s' == s {
      SamePeersStaySound(s, s');
    } else {
      PutKeepsSound(s, d, PeerOf(s', d), s'.rooms[s.index[d]].lastSeen);
    }
  }

  lemma OtherStepsKeepSound(s: State, e: Event)
    requires Valid(s) && Sound(s) && !Establishes(s, e)
    ensures Sound(Step(s, e)) && NoNewControls(s, Step(s, e))
  {
    hide Valid, Sound, NoNewControls, Detach, Stop, Cleanup, BindUdpPath, RouteData, RouteProbe;
    match e {
      case DetachEvent(control, now) => DetachKeepsSound(s, control, now);
      case StopEvent(control) => StopKeepsSound(s, control);
      case CleanupEvent(now) => CleanupKeepsSound(s, now);
      case BindEvent(_, _, _, _) => BindKeepsSound(s, e);
      case RouteDataEvent(_) => RouteKeepsSound(s, e);
      case RouteProbeEvent(_) => RouteKeepsSound(s, e);
      case BeginJoinEvent(_, _) => SamePeersStaySound(s, Step(s, e));
      case CompleteJoinEvent(_, _, _, _) => SamePeersStaySound(s, Step(s, e));
      case ResumeEvent(_, _, _, _) => SamePeersStaySound(s, Step(s, e));
    }
  }

  // ---- Whole runs ----

  /** Every control peer establishes at most once, and none of those in `used` ever again. */
  ghost predicate EstablishesOnce(s: State, es: seq<Event>, used: set<PeerId>)
    decreases |es|
  {
    es != [] ==>
      if Establishes(s, es[0])
      then es[0].control !in used && EstablishesOnce(Step(s, es[0]), es[1..], used + {es[0].control})
      else EstablishesOnce(Step(s, es[0]), es[1..], used)
  }

  ghost predicate ControlsWithin(s: State, used: set<PeerId>) {
    forall d :: Has(s, d) ==> PeerOf(s, d).control in used
  }

  ghost predicate NamesControl(s: State, control: PeerId) {
    exists d :: Has(s, d) && PeerOf(s, d).control == control
  }

  lemma EstablishingAddsControl(s: State, e: Event)
    requires Valid(s) && Sound(s) && Legal(s, e) && Establishes(s, e)
    ensures forall d :: Has(Step(s, e), d) ==>
              PeerOf(Step(s, e), d).control == e.control || NamesControl(s, PeerOf(Step(s, e), d).control)
  {
    if e.ResumeEvent? {
      hide Valid, Sound, Legal, Step, Has, PeerOf, Admits, ResumeError;
      ResumeAttaches(s, e);
    } else {
      hide Valid, Sound, Legal, Step, Has, PeerOf, Admits, Vacated, TakenOver;
      VacatedPeers(s, e);
      AdmissionAttaches(s, e);
    }
  }

  /** In every run where a control peer establishes at most once, control ids stay sound, and a
      control peer that no connection names any more is never named again. */
  lemma {:induction false} OnceMeansSound(s: State, es: seq<Event>, used: set<PeerId>, retired: PeerId)
    requires Valid(s) && Sound(s) && LegalRun(s, es)
    requires ControlsWithin(s, used) && EstablishesOnce(s, es, used)
    ensures Sound(Run(s, es))
    ensures retired in used && !NamesControl(s, retired) ==> !NamesControl(Run(s, es), retired)
    decreases |es|
  {
    if es != [] {
      hide Valid, Sound, Step, Legal, Establishes, Has, PeerOf;
      var e, s' := es[0], Step(s, es[0]);
      StepKeepsValid(s, e);
      if Establishes(s, e) {
        assert e.control !in used;
        EstablishedOnce(s, e, used);
        EstablishingAddsControl(s, e);
        OnceMeansSound(s', es[1..], used + {e.control}, retired);
      } else {
        OtherStepsKeepSound(s, e);
        ControlsStayWithin(s, s', used);
        OnceMeansSound(s', es[1..], used, retired);
      }
    }
  }

  ghost predicate PairwiseDistinct(b: Broadcast) {
    forall x, y :: x in b && y in b && x.control == y.control ==> x == y
  }

  lemma SoundBroadcastsAreDistinct(s: State, session: Key, exclude: Option<ConnectionId>)
    requires Valid(s) && Sound(s) && session in s.rooms
    ensures PairwiseDistinct(Recipients(s.rooms[session], exclude))
  {
    assert RoomIndexed(s.index, session, s.rooms[session]);
    assert forall c :: c in s.rooms[session].peers ==> Has(s, c) && PeerOf(s, c) == s.rooms[session].peers[c];
  }

  /** From an empty relay: at-most-once establishment makes every broadcast's recipients distinct. */
  lemma BroadcastsReachEachPeerOnce(config: Config, es: seq<Event>, session: Key, exclude: Option<ConnectionId>)
    requires 0 < config.maxPeersPerRoom
    requires LegalRun(Initial(config), es) && EstablishesOnce(Initial(config), es, {})
    ensures var s := Run(Initial(config), es);
            && Sound(s)
            && (session in s.rooms ==> PairwiseDistinct(Recipients(s.rooms[session], exclude)))
  {
    InitialIsValid(config);
    RunKeepsValid(Initial(config), es);
    OnceMeansSound(Initial(config), es, {}, 0);
    var s := Run(Initial(config), es);
    if session in s.rooms { SoundBroadcastsAreDistinct(s, session, exclude); }
  }

  /** After a resume, however the run goes on, the late detach of the superseded control peer changes
      no peer and sends nothing. */
  lemma SupersededDetachIsHarmless(s: State, e: Event, es: seq<Event>, used: set<PeerId>, now: Instant)
    requires Valid(s) && Sound(s) && ControlsWithin(s, used)
    requires e.ResumeEvent? && Establishes(s, e) && PeerOf(s, e.connection).control != e.control
    requires LegalRun(s, [e] + es) && EstablishesOnce(s, [e] + es, used)
    ensures var before, after := Run(s, [e] + es), Detach(Run(s, [e] + es), PeerOf(s, e.connection).control, now);
            after.1 == None && after.0.rooms == before.rooms && after.0.index == before.index
  {
    var run := [e] + es;
    assert run[0] == e && run[1..] == es;
    var superseded := PeerOf(s, e.connection).control;
    StepKeepsValid(s, e);
    EstablishingIsSoundIff(s, e);
    ResumeAttaches(s, e);
    assert !NamesControl(Step(s, e), superseded);
    EstablishingAddsControl(s, e);
    OnceMeansSound(Step(s, e), es, used + {e.control}, superseded);
    var t := Run(s, run);
    if superseded in t.controls && Has(t, t.controls[superseded]) {
      assert PeerOf(t, t.controls[superseded]).control != superseded;
    }
  }

  /** Establishing under a control peer that was not used before. */
  lemma EstablishedOnce(s: State, e: Event, used: set<PeerId>)
    requires Valid(s) && Sound(s) && Legal(s, e) && Establishes(s, e)
    requires ControlsWithin(s, used) && e.control !in used
    ensures Sound(Step(s, e)) && ControlsWithin(Step(s, e), used + {e.control})
  {
    EstablishingIsSoundIff(s, e);
    EstablishingAddsControl(s, e);
    hide Valid, Sound, Step, Legal, Establishes, Has, PeerOf, TakenOver;
  }

  lemma ControlsStayWithin(s: State, s': State, used: set<PeerId>)
    requires ControlsWithin(s, used) && NoNewControls(s, s')
    ensures ControlsWithin(s', used)
  {
    hide Has, PeerOf;
  }

  /** Splits a run of single establishments: what was used by the first part stays unused in the second. */
  lemma {:induction false} OnceReaches(s: State, es: seq<Event>, more: seq<Event>, used: set<PeerId>)
    returns (used': set<PeerId>)
    requires Valid(s) && Sound(s) && LegalRun(s, es + more)
    requires ControlsWithin(s, used) && EstablishesOnce(s, es + more, used)
    ensures used <= used'
    ensures var s' := Run(s, es);
            && LegalRun(s, es) && Valid(s') && Sound(s') && s'.config == s.config
            && LegalRun(s', more) && ControlsWithin(s', used') && EstablishesOnce(s', more, used')
    decreases |es|
  {
    hide Valid, Sound, Step, Legal, JoinError, ResumeError, Has, PeerOf, ControlsWithin;
    used' := used;
    if es == [] {
      assert es + more == more;
    } else {
      var e, s' := es[0], Step(s, es[0]);
      assert (es + more)[0] == e && (es + more)[1..] == es[1..] + more;
      StepKeepsValid(s, e);
      if Establishes(s, e) {
        assert e.control !in used;
        EstablishedOnce(s, e, used);
        used' := OnceReaches(s', es[1..], more, used + {e.control});
      } else {
        OtherStepsKeepSound(s, e);
        ControlsStayWithin(s, s', used);
        used' := OnceReaches(s', es[1..], more, used);
      }
    }
  }

  /** The same from an empty relay: no assumption is left but that control peers establish at most once. */
  lemma LateDetachIsHarmless(config: Config, before: seq<Event>, e: Event, after: seq<Event>, now: Instant)
    requires 0 < config.maxPeersPerRoom
    requires LegalRun(Initial(config), before + ([e] + after))
    requires EstablishesOnce(Initial(config), before + ([e] + after), {})
    requires e.ResumeEvent? && Establishes(Run(Initial(config), before), e)
    ensures var superseded := PeerOf(Run(Initial(config), before), e.connection).control;
            var t := Run(Initial(config), before + ([e] + after));
            var (t', sent) := Detach(t, superseded, now);
            superseded != e.control && sent == None && t'.rooms == t.rooms && t'.index == t.index
  {
    InitialIsValid(config);
    var s0 := Initial(config);
    var used := OnceReaches(s0, before, [e] + after, {});
    RunSplits(s0, before, [e] + after);
    var s := Run(s0, before);
    assert ([e] + after)[0] == e && PeerOf(s, e.connection).control in used;
    SupersededDetachIsHarmless(s, e, after, used, now);
  }

  // ---- Broadcasts an operation answers with ----

  /** Every broadcast the operation hands to the server for sending. */
  ghost function Sent(s: State, e: Event): set<Broadcast> {
    match e
    case CompleteJoinEvent(control, proof, draw, now) =>
      var ready := CompleteJoin(s, control, proof, draw, now).1;
      if ready.Ok? then AsSet(ready.value.broadcast) else {}
    case ResumeEvent(control, c, key, now) =>
      var resumed := Resume(s, control, c, key, now).1;
      if resumed.Ok? then AsSet(resumed.value.broadcast) else {}
    case DetachEvent(control, now) => AsSet(Detach(s, control, now).1)
    case StopEvent(control) => AsSet(Stop(s, control).1)
    case CleanupEvent(now) => set n | n in CleanupBroadcasts(s, ExpiredConnections(s, now)) :: n.recipients
    case _ => {}
  }

  function AsSet(b: Option<Broadcast>): set<Broadcast> { if b.Some? then {b.value} else {} }

  /** The broadcast goes to the connected peers of one room. */
  ghost predicate GoesToRoom(s: State, b: Broadcast, k: Key, exclude: Option<ConnectionId>) {
    k in s.rooms && b == Recipients(s.rooms[k], exclude)
  }

  /** What is sent goes to one room, as it is after the operation or, in a cleanup, before it. */
  lemma SentToARoom(s: State, e: Event, b: Broadcast) returns (k: Key, exclude: Option<ConnectionId>)
    requires b in Sent(s, e)
    ensures GoesToRoom(s, b, k, exclude) || GoesToRoom(Step(s, e), b, k, exclude)
  {
    hide Recipients, HoldsSteam, FindSteam, ExpiredAt, Pruned;
    exclude := None;
    match e {
      case CompleteJoinEvent(control, _, draw, _) => k, exclude := s.pending[control].session, Some(draw.connection);
      case ResumeEvent(_, c, _, _) => k, exclude := s.index[c], Some(c);
      case DetachEvent(control, _) => k, exclude := s.index[s.controls[control]], Some(s.controls[control]);
      case StopEvent(control) => k := s.index[s.controls[control]];
      case CleanupEvent(now) =>
        var n :| n in CleanupBroadcasts(s, ExpiredConnections(s, now)) && n.recipients == b;
        k := s.index[n.gone];
    }
  }

  /** In every run from an empty relay where a control peer establishes at most once, every broadcast any operation
      answers with addresses each control peer once. */
  lemma EveryAnswerIsDistinct(config: Config, es: seq<Event>, e: Event, b: Broadcast)
    requires 0 < config.maxPeersPerRoom
    requires LegalRun(Initial(config), es + [e]) && EstablishesOnce(Initial(config), es + [e], {})
    requires b in Sent(Run(Initial(config), es), e)
    ensures PairwiseDistinct(b)
  {
    InitialIsSound(config);
    hide Recipients, Valid, Sound, Step, PairwiseDistinct, Sent, Run, LegalRun, EstablishesOnce, ControlsWithin;
    var s0 := Initial(config);
    var used := OnceReaches(s0, es, [e], {});
    var s := Run(s0, es);
    assert [e] + [] == [e];
    var _ := OnceReaches(s, [e], [], used);
    RunOne(s, e, []);
    RunEnds(Step(s, e));
    var k, exclude := SentToARoom(s, e, b);
    if GoesToRoom(s, b, k, exclude) {
      SoundBroadcastsAreDistinct(s, k, exclude);
    } else {
      SoundBroadcastsAreDistinct(Step(s, e), k, exclude);
    }
  }

  // ---- A stop has no such guard ----

  /** A stop ends the connection its control peer is mapped to, and no other. */
  lemma StopEndsMappedConnection(s: State, control: PeerId, c: ConnectionId)
    requires Valid(s) && Has(s, c)
    ensures Has(Stop(s, control).0, c) <==> !(control in s.controls && s.controls[control] == c)
  {
    if control in s.controls {
      var s0 := s.(controls := s.controls - {control});
      RemoveConnectionKeepsValid(s0, s.controls[control]);
      if s.controls[control] != c { RemoveOtherContinues(s0, s.controls[control], c); }
    }
  }

  /** The stop of a control peer that a resume has just superseded spares the resumed connection if and only if that
      control peer was not mapped to it any more. */
  lemma SupersededStopIff(s: State, e: Event)
    requires Valid(s) && e.ResumeEvent? && Establishes(s, e) && PeerOf(s, e.connection).control != e.control
    ensures var superseded := PeerOf(s, e.connection).control;
            Has(Stop(Step(s, e), superseded).0, e.connection) <==>
            !(superseded in s.controls && s.controls[superseded] == e.connection)
  {
    StepKeepsValid(s, e);
    ResumeAttaches(s, e);
    StopEndsMappedConnection(Step(s, e), PeerOf(s, e.connection).control, e.connection);
  }

  /** In every run from an empty relay where a control peer establishes at most once: the stop of the superseded control
      peer ends the resumed connection if and only if that was still connected when it was resumed. */
  lemma SupersededStopEndsConnected(config: Config, es: seq<Event>, e: Event)
    requires 0 < config.maxPeersPerRoom
    requires LegalRun(Initial(config), es + [e]) && EstablishesOnce(Initial(config), es + [e], {})
    requires e.ResumeEvent? && Establishes(Run(Initial(config), es), e)
    ensures var s := Run(Initial(config), es);
            var p := PeerOf(s, e.connection);
            Has(Stop(Step(s, e), p.control).0, e.connection) <==> p.presence == Reconnecting
  {
    InitialIsValid(config);
    var used := OnceReaches(Initial(config), es, [e], {});
    var s := Run(Initial(config), es);
    var p := PeerOf(s, e.connection);
    assert p.control in used && [e][0] == e;
    SupersededStopIff(s, e);
    assert Dropped(s) && Mapped(s);
  }

  /** The control peer says nothing that takes its entry out of the map. */
  ghost predicate Silent(es: seq<Event>, control: PeerId) {
    forall i :: 0 <= i < |es| && (es[i].DetachEvent? || es[i].StopEvent?) ==> es[i].control != control
  }

  lemma StaleEntryStays(s: State, e: Event, stale: PeerId)
    requires Valid(s) && Legal(s, e) && stale in s.controls && !NamesControl(s, stale)
    requires Establishes(s, e) || e.DetachEvent? || e.StopEvent? ==> e.control != stale
    ensures stale in Step(s, e).controls && Step(s, e).controls[stale] == s.controls[stale]
  {
    hide Valid, NamesControl, BeginJoin, CompleteJoin, Resume, Detach, Stop, BindUdpPath;
    hide RouteData, RouteProbe, Cleanup;
    match e {
      case BeginJoinEvent(_, _) => BeginKeeps(s, e);
      case CompleteJoinEvent(_, _, _, _) => JoinKeepsStale(s, e, stale);
      case ResumeEvent(_, _, _, _) => ResumeKeepsStale(s, e, stale);
      case DetachEvent(_, _) => DetachKeepsStale(s, e, stale);
      case StopEvent(_) => StopKeepsStale(s, e, stale);
      case BindEvent(_, _, _, _) => BindKeeps(s, e);
      case RouteDataEvent(_) => RoutingTouchesSender(s, e); hide Step, Observe;
      case RouteProbeEvent(_) => RoutingTouchesSender(s, e); hide Step, Observe;
      case CleanupEvent(_) => CleanupKeepsStale(s, e, stale);
    }
  }

  lemma BeginKeeps(s: State, e: Event)
    requires e.BeginJoinEvent?
    ensures Step(s, e).controls == s.controls
  {
    hide CapacityError;
  }

  lemma BindKeeps(s: State, e: Event)
    requires e.BindEvent?
    ensures Step(s, e).controls == s.controls
  {
  }

  lemma ResumeKeepsStale(s: State, e: Event, stale: PeerId)
    requires e.ResumeEvent? && stale in s.controls && (Establishes(s, e) ==> e.control != stale)
    ensures stale in Step(s, e).controls && Step(s, e).controls[stale] == s.controls[stale]
  {
    hide BroadcastTo;
  }

  lemma DetachKeepsStale(s: State, e: Event, stale: PeerId)
    requires e.DetachEvent? && stale in s.controls && e.control != stale
    ensures stale in Step(s, e).controls && Step(s, e).controls[stale] == s.controls[stale]
  {
    hide BroadcastTo;
  }

  lemma StopKeepsStale(s: State, e: Event, stale: PeerId)
    requires Valid(s) && e.StopEvent? && stale in s.controls && e.control != stale && !NamesControl(s, stale)
    ensures stale in Step(s, e).controls && Step(s, e).controls[stale] == s.controls[stale]
  {
    hide Valid, Stop, RemoveConnection, Has, PeerOf;
    assert Step(s, e) == Stop(s, e.control).0;
    hide Step;
    if e.control in s.controls {
      HasEveryIndexed(s, s.controls[e.control]);
      StopRemoves(s, e.control);
      RemoveAllFacts(s, s.controls[e.control]);
    } else {
      StopOfStranger(s, e.control);
    }
  }

  lemma StopOfStranger(s: State, control: PeerId)
    requires control !in s.controls
    ensures Stop(s, control).0 == s
  {
  }

  lemma CleanupKeepsStale(s: State, e: Event, stale: PeerId)
    requires e.CleanupEvent? && stale in s.controls && !NamesControl(s, stale)
    ensures stale in Step(s, e).controls && Step(s, e).controls[stale] == s.controls[stale]
  {
    hide Pruned, ExpiredAt;
    assert stale !in ControlsOf(s, ExpiredConnections(s, e.now));
  }

  lemma JoinKeepsStale(s: State, e: Event, stale: PeerId)
    requires Valid(s) && Legal(s, e) && e.CompleteJoinEvent? && stale in s.controls && !NamesControl(s, stale)
    requires Establishes(s, e) ==> e.control != stale
    ensures stale in Step(s, e).controls && Step(s, e).controls[stale] == s.controls[stale]
  {
    if Admits(s, e) { VacatedKeepsStale(s, e, stale); }
    hide Valid, Vacated, BroadcastTo, NamesControl, JoinError;
  }

  lemma VacatedKeepsStale(s: State, e: Event, stale: PeerId)
    requires Valid(s) && Admits(s, e) && stale in s.controls && !NamesControl(s, stale)
    ensures var s' := Vacated(s, e.control); stale in s'.controls && s'.controls[stale] == s.controls[stale]
  {
    var s0, join := s.(pending := s.pending - {e.control}), s.pending[e.control];
    VacatedIsRemoved(s, e);
    if join.session in s.rooms && HoldsSteam(s.rooms[join.session], join.steam) {
      var c := FindSteam(s.rooms[join.session], join.steam);
      assert RoomIndexed(s.index, join.session, s.rooms[join.session]);
      assert Has(s0, c) && Has(s, c) && PeerOf(s0, c) == PeerOf(s, c);
      hide Valid, Has, PeerOf, RemoveConnection;
      RemoveAllFacts(s0, c);
    }
  }

  /** However long after the resume: while the superseded control peer has neither detached nor stopped, its entry
      stays, and its stop ends the connection it once had. */
  lemma {:induction false} StaleStopStillEnds(s: State, es: seq<Event>, used: set<PeerId>, stale: PeerId)
    requires Valid(s) && Sound(s) && LegalRun(s, es) && ControlsWithin(s, used) && EstablishesOnce(s, es, used)
    requires stale in used && stale in s.controls && !NamesControl(s, stale)
    requires Silent(es, stale)
    ensures stale in Run(s, es).controls && Run(s, es).controls[stale] == s.controls[stale]
    ensures !Has(Stop(Run(s, es), stale).0, s.controls[stale])
    decreases |es|
  {
    if es == [] {
      HasEveryIndexed(s, s.controls[stale]);
      if Has(s, s.controls[stale]) {
        StopEndsMappedConnection(s, stale, s.controls[stale]);
      } else {
        RemoveConnectionKeepsValid(s.(controls := s.controls - {stale}), s.controls[stale]);
      }
    } else {
      var e, s' := es[0], Step(s, es[0]);
      var used' := OnceReaches(s, [e], es[1..], used);
      assert [e] + es[1..] == es;
      RunOne(s, e, []);
      assert [e] + [] == [e];
      OnceMeansSound(s, [e], used, stale);
      StaleEntryStays(s, e, stale);
      StaleStopStillEnds(s', es[1..], used', stale);
    }
  }

  /** The same from an empty relay: whatever came before a resume of a connected peer and whatever comes after it, as
      long as the superseded control peer is silent its stop ends the connection under that id. That may by then be
      another player's: an id is free again once its connection is gone, and the stale entry stays. */
  lemma LateStopStillEnds(config: Config, before: seq<Event>, e: Event, after: seq<Event>)
    requires 0 < config.maxPeersPerRoom
    requires LegalRun(Initial(config), before + ([e] + after))
    requires EstablishesOnce(Initial(config), before + ([e] + after), {})
    requires e.ResumeEvent? && Establishes(Run(Initial(config), before), e)
    requires var p := PeerOf(Run(Initial(config), before), e.connection);
             p.presence == Connected && Silent(after, p.control)
    ensures var superseded := PeerOf(Run(Initial(config), before), e.connection).control;
            var t := Run(Initial(config), before + ([e] + after));
            && superseded in t.controls && t.controls[superseded] == e.connection
            && !Has(Stop(t, superseded).0, e.connection)
  {
    var s0 := Initial(config);
    var s := Run(s0, before);
    var c, stale := e.connection, PeerOf(s, e.connection).control;
    InitialIsSound(config);
    var used := OnceReaches(s0, before, [e] + after, {});
    RunSplits(s0, before, [e] + after);
    assert stale in used && s.controls[stale] == c;
    assert ([e] + after)[0] == e && ([e] + after)[1..] == after;
    assert e.control !in used && EstablishesOnce(Step(s, e), after, used + {e.control});
    RunOne(s, e, after);
    ResumeAttaches(s, e);
    hide Valid, Run, LegalRun, EstablishesOnce, Step, Legal, Has, PeerOf, Stop, ResumeError;
    var s1 := Step(s, e);
    StepKeepsValid(s, e);
    NotNamedAfterResume(s, s1, c, e.control, stale, used);
    StaleStopStillEnds(s1, after, used + {e.control}, stale);
  }

  lemma InitialIsSound(config: Config)
    requires 0 < config.maxPeersPerRoom
    ensures Valid(Initial(config)) && Sound(Initial(config)) && ControlsWithin(Initial(config), {})
  {
    InitialIsValid(config);
  }

  lemma NotNamedAfterResume(
      s: State, s1: State, c: ConnectionId, control: PeerId, stale: PeerId, used: set<PeerId>)
    requires Sound(s) && ControlsWithin(s, used) && Attached(s, s1, c, control) && control !in used
    requires Has(s, c) && PeerOf(s, c).control == stale && PeerOf(s, c).presence == Connected
    ensures Sound(s1) && ControlsWithin(s1, used + {control}) && !NamesControl(s1, stale)
    ensures stale in s1.controls && s1.controls[stale] == c
  {
    AttachedIsSoundIff(s, s1, c, control);
    hide Has, PeerOf;
  }

  // ---- Without the assumption ----

  function JoinAs(steam: SteamId): Pending { Pending(7, steam, Tcp, 0, 5, 0) }

  /** Two joins over one control connection, as two different players. */
  function DoubleJoin(): seq<Event> {
    [ BeginJoinEvent(1, JoinAs(100)), CompleteJoinEvent(1, Proof(5, true), Draw(10, 0, 0), 0),
      BeginJoinEvent(1, JoinAs(200)), CompleteJoinEvent(1, Proof(5, true), Draw(11, 0, 0), 0) ]
  }

  lemma RunOne(s: State, e: Event, es: seq<Event>)
    ensures Run(s, [e] + es) == Run(Step(s, e), es)
    ensures LegalRun(s, [e] + es) <==> Legal(s, e) && LegalRun(Step(s, e), es)
  {
    assert ([e] + es)[1..] == es;
  }

  function SmallRelay(): State { Initial(Config(1, 2, 0, 1, 1, 1)) }

  function JoinedOnce(): State {
    Admit(SmallRelay(), JoinAs(100), 1, Draw(10, 0, 0), 0)
  }

  lemma FirstJoin()
    ensures LegalRun(SmallRelay(), DoubleJoin()[..2]) && Run(SmallRelay(), DoubleJoin()[..2]) == JoinedOnce()
  {
    var s0, es := SmallRelay(), DoubleJoin();
    var s1 := Step(s0, es[0]);
    assert s1 == s0.(pending := map[1 := JoinAs(100)]);
    assert Vacated(s1, 1) == s0;
    RunOne(s0, es[0], [es[1]]);
    RunOne(s1, es[1], []);
    assert es[..2] == [es[0]] + [es[1]] && [es[1]] == [es[1]] + [];
  }

  /** The state after the second join. */
  function JoinedTwice(): State { Admit(JoinedOnce(), JoinAs(200), 1, Draw(11, 0, 0), 0) }

  lemma JoinedTwiceIsShared()
    ensures 7 in JoinedTwice().rooms && !PairwiseDistinct(Recipients(JoinedTwice().rooms[7], None))
  {
    var peers := JoinedTwice().rooms[7].peers;
    assert 10 in peers && peers[10] == NewPeer(JoinAs(100), 1, Draw(10, 0, 0), 0);
    assert 11 in peers && peers[11] == NewPeer(JoinAs(200), 1, Draw(11, 0, 0), 0);
    hide JoinedTwice;
    var b := Recipients(JoinedTwice().rooms[7], None);
    assert Recipient(10, 1) in b && Recipient(11, 1) in b;
  }

  lemma SecondBegins(s1: State)
    requires s1 == JoinedOnce().(pending := map[1 := JoinAs(200)])
    ensures Step(JoinedOnce(), DoubleJoin()[2]) == s1 && Legal(JoinedOnce(), DoubleJoin()[2])
  {
    var s0 := JoinedOnce();
    assert s0.rooms[7].peers.Keys == {10};
  }

  lemma SecondCompletes(s1: State)
    requires s1 == JoinedOnce().(pending := map[1 := JoinAs(200)])
    ensures Step(s1, DoubleJoin()[3]) == JoinedTwice() && Legal(s1, DoubleJoin()[3])
  {
    var s0 := JoinedOnce();
    assert s0.rooms[7].peers.Keys == {10} && !HoldsSteam(s0.rooms[7], 200);
    assert s1.pending - {1} == map[];
    assert Vacated(s1, 1) == s0;
    hide BroadcastTo;
  }

  lemma SecondJoin()
    ensures LegalRun(JoinedOnce(), DoubleJoin()[2..]) && Run(JoinedOnce(), DoubleJoin()[2..]) == JoinedTwice()
  {
    var s0, es := JoinedOnce(), DoubleJoin();
    var s1 := s0.(pending := map[1 := JoinAs(200)]);
    SecondBegins(s1);
    SecondCompletes(s1);
    assert es[2..] == [es[2]] + [es[3]] && [es[3]] == [es[3]] + [];
    hide Step, Legal, JoinedOnce, JoinedTwice, DoubleJoin, Run, LegalRun;
    RunOne(s0, es[2], [es[3]]);
    RunOne(s1, es[3], []);
    RunEnds(JoinedTwice());
  }

  lemma {:induction false} RunSplits(s: State, first: seq<Event>, second: seq<Event>)
    ensures Run(s, first + second) == Run(Run(s, first), second)
    ensures LegalRun(s, first + second) <==> LegalRun(s, first) && LegalRun(Run(s, first), second)
    decreases |first|
  {
    if first == [] {
      assert first + second == second;
    } else {
      assert first + second == [first[0]] + (first[1..] + second);
      RunOne(s, first[0], first[1..] + second);
      RunSplits(Step(s, first[0]), first[1..], second);
    }
  }

  /** One control connection may join twice, and then a broadcast addresses it twice. */
  lemma DoubleJoinIsAddressedTwice()
    ensures var s := Run(SmallRelay(), DoubleJoin());
            && LegalRun(SmallRelay(), DoubleJoin())
            && 7 in s.rooms && !PairwiseDistinct(Recipients(s.rooms[7], None))
  {
    assert |DoubleJoin()| == 4;
    hide DoubleJoin, JoinedOnce, JoinedTwice, SmallRelay, Run, LegalRun, Recipients;
    FirstJoin();
    SecondJoin();
    JoinedTwiceIsShared();
    RunSplits(SmallRelay(), DoubleJoin()[..2], DoubleJoin()[2..]);
    assert DoubleJoin() == DoubleJoin()[..2] + DoubleJoin()[2..];
  }

  /** A player joins over control connection 1, comes back over 2 while still connected, and 1 then says goodbye. */
  function ResumeThenStop(): seq<Event> {
    [ BeginJoinEvent(1, JoinAs(100)), CompleteJoinEvent(1, Proof(5, true), Draw(10, 0, 0), 0),
      ResumeEvent(2, 10, 0, 0), StopEvent(1) ]
  }

  /** The state after the resume. */
  function ResumedOnce(): State { Resume(JoinedOnce(), 2, 10, 0, 0).0 }

  lemma ResumedOnceIsShared()
    ensures Establishes(JoinedOnce(), ResumeEvent(2, 10, 0, 0))
    ensures Has(ResumedOnce(), 10) && PeerOf(ResumedOnce(), 10).control == 2
    ensures ResumedOnce().controls == map[1 := 10, 2 := 10]
  {
    hide Recipients, BroadcastTo;
  }

  lemma GoodbyeEnds()
    ensures !Has(Stop(ResumedOnce(), 1).0, 10)
  {
    ResumedOnceIsShared();
    hide ResumedOnce, BroadcastTo;
  }

  lemma GoodbyeSteps()
    ensures var es := ResumeThenStop();
            && es[..2] == DoubleJoin()[..2]
            && Step(JoinedOnce(), es[2]) == ResumedOnce() && Legal(JoinedOnce(), es[2])
            && Step(ResumedOnce(), es[3]) == Stop(ResumedOnce(), 1).0 && Legal(ResumedOnce(), es[3])
            && !Establishes(ResumedOnce(), es[3])
  {
    hide JoinedOnce, Resume, Stop;
  }

  /** Legal, and yet the resumed connection is gone. */
  lemma LateGoodbyeEndsResumedConnection()
    ensures var es := ResumeThenStop();
            && LegalRun(SmallRelay(), es) && Run(SmallRelay(), es[..3]) == ResumedOnce()
            && Has(ResumedOnce(), 10) && PeerOf(ResumedOnce(), 10).control == 2
            && !Has(Run(SmallRelay(), es), 10)
  {
    hide Step, Legal, JoinedOnce, ResumedOnce, Has, Stop, SmallRelay, Run, LegalRun, DoubleJoin;
    var s0, s2, s3, es := SmallRelay(), JoinedOnce(), ResumedOnce(), ResumeThenStop();
    FirstJoin();
    GoodbyeSteps();
    ResumedOnceIsShared();
    GoodbyeEnds();
    RunEnds(Step(s2, es[2]));
    RunEnds(Step(s3, es[3]));
    RunOne(s2, es[2], []);
    RunOne(s2, es[2], [es[3]]);
    RunOne(s3, es[3], []);
    assert es[..3] == es[..2] + ([es[2]] + []) && es == es[..2] + ([es[2]] + [es[3]]) && [es[3]] == [es[3]] + [];
    RunSplits(s0, es[..2], [es[2]] + []);
    RunSplits(s0, es[..2], [es[2]] + [es[3]]);
  }

  lemma RunEnds(s: State)
    ensures Run(s, []) == s && LegalRun(s, [])
  {
  }

  lemma OnceEnds(s: State, used: set<PeerId>)
    ensures EstablishesOnce(s, [], used)
  {
  }

  lemma OnceStep(s: State, e: Event, es: seq<Event>, used: set<PeerId>)
    requires if Establishes(s, e) then e.control !in used && EstablishesOnce(Step(s, e), es, used + {e.control})
             else EstablishesOnce(Step(s, e), es, used)
    ensures EstablishesOnce(s, [e] + es, used)
  {
    assert ([e] + es)[0] == e && ([e] + es)[1..] == es;
    hide Step, Establishes;
  }

  lemma JoinSteps(s1: State)
    requires s1 == SmallRelay().(pending := map[1 := JoinAs(100)])
    ensures Step(SmallRelay(), ResumeThenStop()[0]) == s1 && !Establishes(SmallRelay(), ResumeThenStop()[0])
    ensures Step(s1, ResumeThenStop()[1]) == JoinedOnce() && Establishes(s1, ResumeThenStop()[1])
  {
    assert Vacated(s1, 1) == SmallRelay();
  }

  /** In that run every control peer establishes once. */
  lemma LateGoodbyeEstablishesOnce()
    ensures EstablishesOnce(SmallRelay(), ResumeThenStop(), {})
  {
    hide Step, Establishes, JoinedOnce, ResumedOnce, SmallRelay, Vacated, EstablishesOnce, Has, Legal;
    var s0, s2, s3, es := SmallRelay(), JoinedOnce(), ResumedOnce(), ResumeThenStop();
    var s1 := s0.(pending := map[1 := JoinAs(100)]);
    JoinSteps(s1);
    GoodbyeSteps();
    ResumedOnceIsShared();
    assert {1} + {2} == {1, 2} && {} + {1} == {1};
    OnceEnds(Step(s3, es[3]), {1, 2});
    OnceStep(s3, es[3], [], {1, 2});
    OnceStep(s2, es[2], [es[3]] + [], {1});
    OnceStep(s1, es[1], [es[2]] + ([es[3]] + []), {});
    OnceStep(s0, es[0], [es[1]] + ([es[2]] + ([es[3]] + [])), {});
    assert [es[0]] + ([es[1]] + ([es[2]] + ([es[3]] + []))) == es;
  }
}
