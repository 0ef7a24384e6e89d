/** One connection from its admission to its removal: what never changes about it, and why no frame
    id is routed twice, whatever detaches and resumes happen in between. */
module RelayLife {
  import opened Prelude
  import opened FrameWindow
  import opened RelayModel
  import opened RelayInvariant

  ghost predicate SameIdentity(p: Peer, q: Peer) {
    && p.connection == q.connection && p.steam == q.steam && p.profile == q.profile
    && p.resumeKey == q.resumeKey && p.pathKey == q.pathKey && p.capabilities == q.capabilities
  }

  ghost predicate RefusesMore(w: Window, w': Window) {
    forall id: u64 :: Refuses(w, id) ==> Refuses(w', id)
  }

  /** The connection is still the same one, in the same session, and refuses every id it refused. */
  ghost predicate Continues(s: State, s': State, c: ConnectionId)
    requires Has(s, c) && Has(s', c)
  {
    && s'.index[c] == s.index[c]
    && SameIdentity(PeerOf(s, c), PeerOf(s', c))
    && RefusesMore(PeerOf(s, c).frames, PeerOf(s', c).frames)
  }

  /** The event admits a peer under this very id, ending whatever the id stood for before. */
  ghost predicate Issues(s: State, e: Event, c: ConnectionId) {
    Admits(s, e) && e.draw.connection == c
  }

  lemma ObserveRefusesMore(w: Window, id: u64)
    ensures RefusesMore(w, Observe(w, id).0)
  {
    forall other: u64 | Refuses(w, other)
      ensures Refuses(Observe(w, id).0, other)
    {
      RefusalIsStable(w, other, id);
    }
  }

  /** Replacing one peer leaves every other as it was. */
  lemma PutPeerFacts(s: State, d: ConnectionId, p: Peer, lastSeen: Instant, c: ConnectionId)
    requires Has(s, d)
    ensures var s' := PutPeer(s, s.index[d], d, p, lastSeen);
            && (Has(s', c) <==> Has(s, c))
            && (Has(s, c) ==> s'.index[c] == s.index[c] && PeerOf(s', c) == if c == d then p else PeerOf(s, c))
  {
  }

  lemma PutAllFacts(s: State, d: ConnectionId, p: Peer, lastSeen: Instant)
    requires Has(s, d)
    ensures var s' := PutPeer(s, s.index[d], d, p, lastSeen);
            && (forall c :: Has(s', c) <==> Has(s, c))
            && (forall c :: Has(s, c) ==> PeerOf(s', c) == if c == d then p else PeerOf(s, c))
  {
    var s' := PutPeer(s, s.index[d], d, p, lastSeen);
    assert d in s.index && s.index[d] in s.rooms;
    hide PutPeer, Has, PeerOf;
    forall c
      ensures Has(s', c) <==> Has(s, c)
      ensures Has(s, c) ==> PeerOf(s', c) == if c == d then p else PeerOf(s, c)
    {
      PutPeerFacts(s, d, p, lastSeen, c);
    }
  }

  lemma WindowKept(w: Window)
    ensures RefusesMore(w, w)
  {
  }

  /** A connection whose record is the same continues. */
  lemma SameContinues(s: State, s': State, c: ConnectionId)
    requires Has(s, c) && Has(s', c) && s'.index[c] == s.index[c] && PeerOf(s', c) == PeerOf(s, c)
    ensures Continues(s, s', c)
  {
    WindowKept(PeerOf(s, c).frames);
    hide RefusesMore, Has;
  }

  lemma PutPeerContinues(s: State, d: ConnectionId, p: Peer, lastSeen: Instant, c: ConnectionId)
    requires Has(s, c) && Has(s, d)
    requires SameIdentity(PeerOf(s, d), p) && RefusesMore(PeerOf(s, d).frames, p.frames)
    ensures Has(PutPeer(s, s.index[d], d, p, lastSeen), c)
    ensures Continues(s, PutPeer(s, s.index[d], d, p, lastSeen), c)
  {
    PutPeerFacts(s, d, p, lastSeen, c);
    hide RefusesMore, PutPeer, Has;
    if c != d { SameContinues(s, PutPeer(s, s.index[d], d, p, lastSeen), c); }
  }

  lemma RemoveFacts(s: State, c: ConnectionId, d: ConnectionId)
    requires Has(s, c) || c !in s.index
    ensures var s' := RemoveConnection(s, c).0;
            && (Has(s', d) <==> Has(s, d) && d != c)
            && (Has(s, d) && d != c ==> s'.index[d] == s.index[d] && PeerOf(s', d) == PeerOf(s, d))
            && s'.controls == (if Has(s, c) then s.controls - {PeerOf(s, c).control} else s.controls)
  {
    hide BroadcastTo;
  }

  /** The same about every connection at once. */
  lemma RemoveAllFacts(s: State, c: ConnectionId)
    requires Has(s, c) || c !in s.index
    ensures var s' := RemoveConnection(s, c).0;
            && (forall d :: Has(s', d) <==> Has(s, d) && d != c)
            && (forall d :: Has(s, d) && d != c ==> PeerOf(s', d) == PeerOf(s, d))
            && s'.controls == (if Has(s, c) then s.controls - {PeerOf(s, c).control} else s.controls)
  {
    hide RemoveConnection, Has, PeerOf;
    var s' := RemoveConnection(s, c).0;
    forall d
      ensures Has(s', d) <==> Has(s, d) && d != c
      ensures Has(s, d) && d != c ==> PeerOf(s', d) == PeerOf(s, d)
    {
      RemoveFacts(s, c, d);
    }
    RemoveFacts(s, c, c);
  }

  lemma RemoveOtherContinues(s: State, d: ConnectionId, c: ConnectionId)
    requires Has(s, c) && c != d
    ensures Has(RemoveConnection(s, d).0, c) && Continues(s, RemoveConnection(s, d).0, c)
    ensures PeerOf(RemoveConnection(s, d).0, c) == PeerOf(s, c)
  {
    hide BroadcastTo;
    var s' := RemoveConnection(s, d).0;
    assert Has(s', c) && s'.index[c] == s.index[c] && PeerOf(s', c) == PeerOf(s, c);
    hide RemoveConnection;
    SameContinues(s, s', c);
  }

  lemma VacatedContinues(s: State, e: Event, c: ConnectionId)
    requires Has(s, c) && Admits(s, e) && c in Vacated(s, e.control).index
    ensures var s' := Vacated(s, e.control);
            Has(s', c) && s'.index[c] == s.index[c] && PeerOf(s', c) == PeerOf(s, c)
  {
    var s0, join := s.(pending := s.pending - {e.control}), s.pending[e.control];
    assert Has(s0, c);
    hide BroadcastTo, JoinError;
    if join.session in s0.rooms && HoldsSteam(s0.rooms[join.session], join.steam) {
      var d := s0.rooms[join.session].peers[FindSteam(s0.rooms[join.session], join.steam)].connection;
      assert Vacated(s, e.control) == RemoveConnection(s0, d).0;
      if c != d {
        RemoveOtherContinues(s0, d, c);
        hide RemoveConnection, RefusesMore;
      }
    }
  }

  lemma AdmitFacts(s: State, join: Pending, control: PeerId, draw: Draw, now: Instant, c: ConnectionId)
    requires Has(s, c) && c != draw.connection
    ensures var s' := Admit(s, join, control, draw, now);
            Has(s', c) && s'.index[c] == s.index[c] && PeerOf(s', c) == PeerOf(s, c)
  {
    hide NewPeer;
  }

  lemma AdmissionContinues(s: State, e: Event, c: ConnectionId)
    requires Valid(s) && Legal(s, e) && Admits(s, e)
    requires c in s.index && c in Step(s, e).index && e.draw.connection != c
    ensures Has(s, c) && Has(Step(s, e), c) && Continues(s, Step(s, e), c)
    ensures PeerOf(Step(s, e), c) == PeerOf(s, c)
  {
    HasEveryIndexed(s, c);
    hide Valid, BroadcastTo, Vacated;
    var s1 := Vacated(s, e.control);
    assert Step(s, e) == Admit(s1, s.pending[e.control], e.control, e.draw, e.now);
    VacatedContinues(s, e, c);
    AdmitFacts(s1, s.pending[e.control], e.control, e.draw, e.now, c);
    hide Admit, Step;
    SameContinues(s, Step(s, e), c);
  }

  predicate IsRoute(e: Event) { e.RouteDataEvent? || e.RouteProbeEvent? }

  /** What routing leaves of the sender's record. */
  ghost predicate Sender(p: Peer, p': Peer) {
    p' == p.(frames := p'.frames, budget := p'.budget, lastSeen := p'.lastSeen)
  }

  /** The state with the sender's record replaced by the one it has in `s'`. */
  ghost predicate OnlySender(s: State, s': State, d: ConnectionId)
    requires Has(s, d)
  {
    && Has(s', d) && s'.index[d] == s.index[d] && Sender(PeerOf(s, d), PeerOf(s', d))
    && (s' == s || s' == PutPeer(s, s.index[d], d, PeerOf(s', d), s'.rooms[s.index[d]].lastSeen))
  }

  lemma DataTouchesSender(s: State, r: Request)
    requires Has(s, r.connection)
    ensures var s', d := RouteData(s, r).0, r.connection;
            && OnlySender(s, s', d)
            && (PeerOf(s', d).frames == PeerOf(s, d).frames
                || PeerOf(s', d).frames == Observe(PeerOf(s, d).frames, r.frameId).0)
  {
    hide CheckTraffic, Observe, TargetDestination, SourceError;
  }

  lemma ProbeTouchesSender(s: State, r: Request)
    requires Has(s, r.connection)
    ensures var s', d := RouteProbe(s, r).0, r.connection;
            OnlySender(s, s', d) && PeerOf(s', d).frames == PeerOf(s, d).frames
  {
    hide CheckTraffic, CheckProbe, TargetDestination, SourceError, CanProbe;
  }

  lemma NobodyRoutes(s: State, e: Event)
    requires IsRoute(e) && !Has(s, e.request.connection)
    ensures Step(s, e) == s
  {
    hide CheckTraffic, CheckProbe, Observe, TargetDestination, SourceError;
  }

  /** Routing changes nothing but the sender's own record and its room's time stamp. */
  lemma RoutingTouchesSender(s: State, e: Event)
    requires IsRoute(e)
    ensures var d := e.request.connection;
            if Has(s, d) then
              && OnlySender(s, Step(s, e), d)
              && (PeerOf(Step(s, e), d).frames == PeerOf(s, d).frames
                  || PeerOf(Step(s, e), d).frames == Observe(PeerOf(s, d).frames, e.request.frameId).0)
            else Step(s, e) == s
  {
    hide RouteData, RouteProbe, Observe, OnlySender, Has;
    if !Has(s, e.request.connection) { NobodyRoutes(s, e); }
    else if e.RouteDataEvent? { DataTouchesSender(s, e.request); }
    else { ProbeTouchesSender(s, e.request); }
  }

  lemma RouteContinues(s: State, e: Event, c: ConnectionId)
    requires Has(s, c) && IsRoute(e)
    ensures Has(Step(s, e), c) && Continues(s, Step(s, e), c)
  {
    var d, s' := e.request.connection, Step(s, e);
    RoutingTouchesSender(s, e);
    hide Step, Observe, RefusesMore;
    if s' == s {
      SameContinues(s, s', c);
    } else {
      ObserveRefusesMore(PeerOf(s, d).frames, e.request.frameId);
      WindowKept(PeerOf(s, d).frames);
      hide PutPeer;
      PutPeerContinues(s, d, PeerOf(s', d), s'.rooms[s.index[d]].lastSeen, c);
    }
  }

  lemma ResumeContinues(s: State, e: Event, c: ConnectionId)
    requires Valid(s) && Has(s, c) && e.ResumeEvent?
    ensures Has(Step(s, e), c) && Continues(s, Step(s, e), c)
  {
    hide BroadcastTo, RefusesMore, Valid;
    var s', d := Step(s, e), e.connection;
    WindowKept(PeerOf(s, c).frames);
    if s' != s {
      WindowKept(PeerOf(s, d).frames);
      PutPeerContinues(s, d, s'.rooms[s.index[d]].peers[d], e.now, c);
    }
  }

  lemma DetachContinues(s: State, e: Event, c: ConnectionId)
    requires Valid(s) && Has(s, c) && e.DetachEvent?
    ensures Has(Step(s, e), c) && Continues(s, Step(s, e), c)
  {
    hide BroadcastTo, RefusesMore, Valid;
    var s' := Step(s, e);
    WindowKept(PeerOf(s, c).frames);
    if s'.rooms != s.rooms {
      var d := s.controls[e.control];
      WindowKept(PeerOf(s, d).frames);
      PutPeerContinues(s, d, s'.rooms[s.index[d]].peers[d], s.rooms[s.index[d]].lastSeen, c);
    }
  }

  lemma StopContinues(s: State, e: Event, c: ConnectionId)
    requires Valid(s) && Has(s, c) && e.StopEvent? && c in Step(s, e).index
    ensures Has(Step(s, e), c) && Continues(s, Step(s, e), c) && PeerOf(Step(s, e), c) == PeerOf(s, c)
  {
    var s0 := s.(controls := s.controls - {e.control});
    assert Has(s0, c) && PeerOf(s0, c) == PeerOf(s, c);
    if e.control in s.controls {
      var d := s.controls[e.control];
      RemoveConnectionKeepsValid(s0, d);
      hide Valid, Has, BroadcastTo;
      assert Step(s, e) == RemoveConnection(s0, d).0;
      hide RemoveConnection;
      if c != d { RemoveOtherContinues(s0, d, c); }
    }
    hide Valid, Continues;
    SameContinues(s, Step(s, e), c);
  }

  lemma BindContinues(s: State, e: Event, c: ConnectionId)
    requires Valid(s) && Has(s, c) && e.BindEvent?
    ensures Has(Step(s, e), c) && Continues(s, Step(s, e), c)
  {
    hide RefusesMore, Valid;
    var s', d := Step(s, e), e.connection;
    WindowKept(PeerOf(s, c).frames);
    if s' != s {
      WindowKept(PeerOf(s, d).frames);
      PutPeerContinues(s, d, s'.rooms[s.index[d]].peers[d], s.rooms[s.index[d]].lastSeen, c);
    }
  }

  lemma CleanupContinues(s: State, e: Event, c: ConnectionId)
    requires Valid(s) && Has(s, c) && e.CleanupEvent? && c in Step(s, e).index
    ensures Has(Step(s, e), c) && Continues(s, Step(s, e), c) && PeerOf(Step(s, e), c) == PeerOf(s, c)
  {
    hide Cleanup, Valid, Has, PeerOf, ExpiredAt, Continues, Step;
    var s' := Cleanup(s, e.now);
    CleanupStep(s, e);
    CleanupKeepsValid(s, e.now);
    CleanupOfPeer(s, e.now, c);
    HasEveryIndexed(s', c);
    SameContinues(s, s', c);
  }

  lemma CleanupStep(s: State, e: Event)
    requires e.CleanupEvent?
    ensures Step(s, e) == Cleanup(s, e.now)
  {
    hide Cleanup;
  }

  /** Every step either ends a connection or continues it. */
  lemma StepContinues(s: State, e: Event, c: ConnectionId)
    requires Valid(s) && Legal(s, e)
    requires c in s.index && c in Step(s, e).index && !Issues(s, e, c)
    ensures Has(s, c) && Has(Step(s, e), c) && Continues(s, Step(s, e), c)
  {
    HasEveryIndexed(s, c);
    hide Valid, RefusesMore, Resume, Detach, Stop, BindUdpPath, RouteData, RouteProbe, Cleanup;
    match e {
      case BeginJoinEvent(_, _) => WindowKept(PeerOf(s, c).frames);
      case CompleteJoinEvent(_, _, _, _) =>
        if Admits(s, e) { AdmissionContinues(s, e, c); } else { WindowKept(PeerOf(s, c).frames); }
      case ResumeEvent(_, _, _, _) => ResumeContinues(s, e, c);
      case DetachEvent(_, _) => DetachContinues(s, e, c);
      case StopEvent(_) => StopContinues(s, e, c);
      case BindEvent(_, _, _, _) => BindContinues(s, e, c);
      case RouteDataEvent(_) => RouteContinues(s, e, c);
      case RouteProbeEvent(_) => RouteContinues(s, e, c);
      case CleanupEvent(_) => CleanupContinues(s, e, c);
    }
  }

  // ---- Whole runs ----

  /** The run never removes the connection nor issues its id again. */
  ghost predicate LivesThrough(s: State, es: seq<Event>, c: ConnectionId)
    decreases |es|
  {
    c in s.index && (es != [] ==> !Issues(s, es[0], c) && LivesThrough(Step(s, es[0]), es[1..], c))
  }

  ghost predicate Routes(s: State, e: Event, c: ConnectionId, id: u64) {
    e.RouteDataEvent? && e.request.connection == c && e.request.frameId == id && RouteData(s, e.request).1.Ok?
  }

  /** How many times the run delivers the frame. */
  ghost function Deliveries(s: State, es: seq<Event>, c: ConnectionId, id: u64): nat
    decreases |es|
  {
    if es == [] then 0
    else (if Routes(s, es[0], c, id) then 1 else 0) + Deliveries(Step(s, es[0]), es[1..], c, id)
  }

  /** A frame that gets as far as the budget has been observed by the window. */
  lemma RoutingObserves(s: State, r: Request)
    requires Has(s, r.connection)
    requires RouteData(s, r).1.Ok? || RouteData(s, r).1 == Err(RateLimited)
    ensures var p, s' := PeerOf(s, r.connection), RouteData(s, r).0;
            && Accepts(Observe(p.frames, r.frameId).1)
            && Has(s', r.connection) && PeerOf(s', r.connection).frames == Observe(p.frames, r.frameId).0
  {
    SourceIsNotLimited(PeerOf(s, r.connection), r);
    hide CheckTraffic, SourceError, Observe;
    TargetIsNotLimited(RouteData(s, r).0.rooms[s.index[r.connection]], r.toSteam);
    hide TargetDestination;
  }

  lemma SourceIsNotLimited(p: Peer, r: Request)
    ensures SourceError(p, r.fromSteam, r.source) != Some(RateLimited)
  {
  }

  lemma TargetIsNotLimited(room: Room, toSteam: SteamId)
    ensures TargetDestination(room, toSteam, false) != Err(RateLimited)
  {
    hide HoldsSteam, FindSteam;
  }

  lemma RoutingRefusesAgain(s: State, e: Event, c: ConnectionId, id: u64)
    requires Valid(s) && Routes(s, e, c, id)
    ensures Has(s, c) && !Refuses(PeerOf(s, c).frames, id)
    ensures Has(Step(s, e), c) && Refuses(PeerOf(Step(s, e), c).frames, id)
  {
    assert Has(s, c) by { hide Valid, CheckTraffic, SourceError, Observe, TargetDestination; }
    hide Valid, Has, RouteData;
    RoutingObserves(s, e.request);
    ObservedIsRefused(PeerOf(s, c).frames, id);
    hide Observe;
  }

  /** The window is asked before the budget: a frame that exceeds the rate has spent its id, and is refused for the rest
      of the connection's life. */
  lemma RateLimitedFrameIsSpent(s: State, r: Request, es: seq<Event>)
    requires Valid(s) && RouteData(s, r).1 == Err(RateLimited)
    requires var s' := RouteData(s, r).0; LegalRun(s', es) && LivesThrough(s', es, r.connection)
    ensures Deliveries(RouteData(s, r).0, es, r.connection, r.frameId) == 0
  {
    assert Has(s, r.connection) by { hide Valid, CheckTraffic, SourceError, Observe, TargetDestination; }
    hide Valid, Has, RouteData, LegalRun, LivesThrough, Deliveries;
    RoutingObserves(s, r);
    ObservedIsRefused(PeerOf(s, r.connection).frames, r.frameId);
    RouteDataKeepsValid(s, r);
    hide Observe, Refuses;
    LifeOfAConnection(RouteData(s, r).0, es, r.connection, r.frameId);
  }

  /** Over the whole life of a connection no frame id is delivered twice, and its session, SteamID64,
      profile, capabilities and keys stay what they were. */
  lemma {:induction false} LifeOfAConnection(s: State, es: seq<Event>, c: ConnectionId, id: u64)
    requires Valid(s) && LegalRun(s, es) && LivesThrough(s, es, c)
    ensures Has(s, c) && Has(Run(s, es), c) && Continues(s, Run(s, es), c)
    ensures Deliveries(s, es, c, id) <= if Refuses(PeerOf(s, c).frames, id) then 0 else 1
    decreases |es|
  {
    HasEveryIndexed(s, c);
    if es != [] {
      var s' := Step(s, es[0]);
      StepKeepsValid(s, es[0]);
      StepContinues(s, es[0], c);
      LifeOfAConnection(s', es[1..], c, id);
      if Routes(s, es[0], c, id) { RoutingRefusesAgain(s, es[0], c, id); }
    }
  }
}
