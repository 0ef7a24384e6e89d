/** The application worker: submitters stamp commands with the generation they saw, one worker takes
    them off a bounded queue, and an atomic cell carries leave and shutdown requests. Every step of any
    participant may come between any two steps of another. */
module Worker {
  import opened Prelude

  const QUEUE_CAPACITY: nat := 16

  datatype Operation =
    | Starting | StoppingSession | LeavingRoom | RefreshingAccounts | Probing | ReadingInputDelay
    | WritingInputDelay | OpeningLogs | ExportingDiagnosticsBundle | ReadingClipboard | ConfiguringRoom
    | SavingRelayCatalog | ShuttingDown

  datatype Command =
    | RetryBootstrap | Start | StopSession | JoinRelayRoom | RejoinRelayRoom | RefreshAccounts
    | StartReadinessProbe | StartHookReceiveProbe | StartLightPing | ReadInputDelay | WriteInputDelay
    | OpenLogDirectory | ExportDiagnosticsBundle | ClearLogs | ReadClipboard | SaveRelayCatalog
    | SavePreferences | EnumerateLanAdapters | CreateLanRoom | ProbeLanJoin | JoinLanRoom

  /** The operation a command performs; clearing the logs performs none. */
  function OperationOf(c: Command): Option<Operation> {
    match c
    case RetryBootstrap => None
    case Start => Some(Starting)
    case StopSession => Some(StoppingSession)
    case JoinRelayRoom => Some(ConfiguringRoom)
    case RejoinRelayRoom => Some(ConfiguringRoom)
    case RefreshAccounts => Some(RefreshingAccounts)
    case StartReadinessProbe => Some(Probing)
    case StartHookReceiveProbe => Some(Probing)
    case StartLightPing => Some(Probing)
    case ReadInputDelay => Some(ReadingInputDelay)
    case WriteInputDelay => Some(WritingInputDelay)
    case OpenLogDirectory => Some(OpeningLogs)
    case ExportDiagnosticsBundle => Some(ExportingDiagnosticsBundle)
    case ClearLogs => None
    case ReadClipboard => Some(ReadingClipboard)
    case SaveRelayCatalog => Some(SavingRelayCatalog)
    case SavePreferences => Some(SavingRelayCatalog)
    case EnumerateLanAdapters => Some(ConfiguringRoom)
    case CreateLanRoom => Some(ConfiguringRoom)
    case ProbeLanJoin => Some(ConfiguringRoom)
    case JoinLanRoom => Some(ConfiguringRoom)
  }

  /** The two commands that look at the client before they begin. */
  predicate MayRefuse(c: Command) { c.Start? || c.SaveRelayCatalog? }

  datatype Bootstrap = Initializing | Ready | Failed

  datatype Snapshot = Snapshot(
    bootstrap: Bootstrap, operation: Option<Operation>, generation: u64, shutdownComplete: bool)

  /** A stamped command. `seen` is how many operations or bootstraps had begun or ended at its stamping. */
  datatype Stamped = Stamped(command: Command, stamp: u64, seen: nat)

  datatype Control = NoRequest | LeaveRequest | ShutdownRequest

  /** Where the worker is in its loop. */
  datatype Place = Boot | Booting | Swap | Leaving | Receive | Performing | Closing | Stopped

  /** A command that ran: when, and whether it performed an operation. */
  datatype Ran = Ran(stamped: Stamped, at: nat, performed: bool)

  datatype State = State(
    snapshot: Snapshot, control: Control, queue: seq<Stamped>, inFlight: seq<Stamped>, client: bool, place: Place,
    // What an observer remembers; no step reads it.
    changes: nat, log: seq<Ran>, requested: bool, taken: nat)

  function Initial(): State {
    State(Snapshot(Initializing, None, 0, false), NoRequest, [], [], false, Boot, 0, [], false, 0)
  }

  datatype Event =
    | ReadGeneration(command: Command)
    | TrySend(index: nat)
    | LeaveRoom
    | RequestShutdown
    | WorkerStep(bootOk: bool, timedOut: bool, disconnected: bool, refused: bool)

  /** A begin or an end: the generation moves on, until it saturates. */
  function Bump(s: State, snapshot: Snapshot): State {
    s.(snapshot := snapshot.(generation := SaturatingSucc(s.snapshot.generation)), changes := s.changes + 1)
  }

  /** `set_operation`. */
  function SetOperation(s: State, operation: Option<Operation>): State {
    if s.snapshot.operation != operation then Bump(s, s.snapshot.(operation := operation)) else s
  }

  predicate Current(s: State, q: Stamped, bootstrap: Bootstrap) {
    && s.snapshot.bootstrap == bootstrap && s.snapshot.operation.None? && !s.snapshot.shutdownComplete
    && s.snapshot.generation == q.stamp
  }

  function Record(s: State, q: Stamped, performed: bool): State { s.(log := s.log + [Ran(q, s.changes, performed)]) }

  /** What becomes of the command at the head of the queue. */
  function Handle(s: State, q: Stamped, refused: bool): State {
    if q.command.RetryBootstrap? then
      s.(place := if s.client then Swap else Boot)
    else if q.command.OpenLogDirectory? && !s.client then
      (if Current(s, q, Failed) then Record(s, q, false) else s).(place := Swap)
    else if !s.client || !Current(s, q, Ready) || (MayRefuse(q.command) && refused) then
      s.(place := Swap)
    else match OperationOf(q.command)
      case None => Record(s, q, false).(place := Swap)
      case Some(operation) => SetOperation(Record(s, q, true), Some(operation)).(place := Performing)
  }

  function Work(s: State, e: Event): State
    requires e.WorkerStep?
  {
    match s.place
    case Boot =>
      Bump(s, s.snapshot.(bootstrap := Initializing, operation := None)).(place := Booting)
    case Booting =>
      Bump(s, s.snapshot.(bootstrap := if e.bootOk then Ready else Failed)).(client := e.bootOk, place := Swap)
    case Swap =>
      var s1 := s.(control := NoRequest);
      (match s.control
       case NoRequest => s1.(place := Receive)
       case LeaveRequest =>
         if s.client then SetOperation(s1, Some(LeavingRoom)).(place := Leaving) else s1.(place := Receive)
       case ShutdownRequest =>
         s1.(snapshot := s.snapshot.(operation := Some(ShuttingDown)), place := Closing))
    case Leaving => SetOperation(s, None).(place := Receive)
    case Receive =>
      if s.queue != [] then
        Handle(s.(queue := s.queue[1..], taken := if s.requested then s.taken + 1 else 0), s.queue[0], e.refused)
      else if e.disconnected then s.(place := Stopped)
      else if e.timedOut then s.(place := Swap)
      else s
    case Performing => SetOperation(s, None).(place := Swap)
    case Closing => s.(snapshot := s.snapshot.(operation := None, shutdownComplete := true), place := Stopped)
    case Stopped => s
  }

  function Step(s: State, e: Event): State {
    match e
    case ReadGeneration(command) =>
      s.(inFlight := s.inFlight + [Stamped(command, s.snapshot.generation, s.changes)])
    case TrySend(index) =>
      if index >= |s.inFlight| then s
      else
        var rest := s.inFlight[..index] + s.inFlight[index + 1..];
        if |s.queue| < QUEUE_CAPACITY && s.place != Stopped
        then s.(inFlight := rest, queue := s.queue + [s.inFlight[index]])
        else s.(inFlight := rest)
    case LeaveRoom => s.(control := if s.control.NoRequest? then LeaveRequest else s.control)
    case RequestShutdown => s.(control := ShutdownRequest, requested := true)
    case WorkerStep(_, _, _, _) => Work(s, e)
  }

  function Run(s: State, es: seq<Event>): State
    decreases |es|
  {
    if es == [] then s else Run(Step(s, es[0]), es[1..])
  }

  // ---- Invariant ----

  /** The generation an observer who counted `n` changes would see. */
  function Saturated(n: nat): u64 { if n < U64_MAX then n else U64_MAX }

  ghost predicate StampOk(q: Stamped, changes: nat) { q.stamp == Saturated(q.seen) && q.seen <= changes }

  ghost predicate StampsOk(qs: seq<Stamped>, changes: nat) { forall i :: 0 <= i < |qs| ==> StampOk(qs[i], changes) }

  /** Nothing began or ended between the two counts, as far as a saturating counter can tell. */
  ghost predicate SawLatest(seen: nat, at: nat) { seen == at || (seen >= U64_MAX && at >= U64_MAX) }

  /** The count of changes once this command has begun. */
  function After(r: Ran): nat { r.at + (if r.performed then 1 else 0) }

  ghost predicate RanOk(r: Ran, changes: nat) {
    StampOk(r.stamped, changes) && SawLatest(r.stamped.seen, r.at) && After(r) <= changes
  }

  ghost predicate LogOk(log: seq<Ran>, changes: nat) {
    && (forall i :: 0 <= i < |log| ==> RanOk(log[i], changes))
    && (forall i, j :: 0 <= i < j < |log| ==> After(log[i]) <= log[j].at)
  }

  ghost predicate PlaceOk(s: State) {
    && (s.place.Booting? || s.place.Swap? || s.place.Receive? ==> s.snapshot.operation.None?)
    && (s.place.Performing? || s.place.Leaving? || s.place.Closing? ==> s.snapshot.operation.Some?)
    && (s.place.Leaving? ==> s.client)
    && (s.snapshot.shutdownComplete ==> s.place.Stopped?)
  }

  ghost predicate ShutdownOk(s: State) {
    && (s.requested ==> s.control.ShutdownRequest? || s.place.Closing? || s.place.Stopped?)
    && s.taken <= 1
    && (s.taken == 1 ==> s.requested && !s.place.Receive? && !s.place.Leaving?)
  }

  ghost predicate Inv(s: State) {
    && s.snapshot.generation == Saturated(s.changes)
    && |s.queue| <= QUEUE_CAPACITY
    && StampsOk(s.queue, s.changes) && StampsOk(s.inFlight, s.changes)
    && LogOk(s.log, s.changes) && PlaceOk(s) && ShutdownOk(s)
  }

  /** The worker's test of a stamp, exactly. */
  lemma StampTest(s: State, q: Stamped)
    requires s.snapshot.generation == Saturated(s.changes) && StampOk(q, s.changes)
    ensures s.snapshot.generation == q.stamp <==> SawLatest(q.seen, s.changes)
  {
  }

  lemma ChangesGrow(s: State, more: nat)
    requires StampsOk(s.queue, s.changes) && StampsOk(s.inFlight, s.changes) && LogOk(s.log, s.changes)
    requires s.changes <= more
    ensures StampsOk(s.queue, more) && StampsOk(s.inFlight, more) && LogOk(s.log, more)
  {
    forall i | 0 <= i < |s.log| ensures RanOk(s.log[i], more) {
      assert RanOk(s.log[i], s.changes);
    }
  }

  lemma LogGrows(log: seq<Ran>, r: Ran, changes: nat, more: nat)
    requires LogOk(log, changes) && changes <= more && r.at == changes && RanOk(r, more)
    ensures LogOk(log + [r], more)
  {
    forall i | 0 <= i < |log| ensures RanOk(log[i], more) {
      assert RanOk(log[i], changes);
    }
  }

  /** What handling a command may do, whatever the command. */
  ghost predicate Handled(s: State, s': State, q: Stamped) {
    && s'.queue == s.queue && s'.inFlight == s.inFlight && s'.control == s.control && s'.requested == s.requested
    && s'.taken == s.taken && s'.snapshot.shutdownComplete == s.snapshot.shutdownComplete
    && (s'.place.Swap? || s'.place.Boot? || s'.place.Performing?)
    && (s'.place.Performing? <==> s'.snapshot.operation.Some?)
    && var performed := s'.place.Performing?;
       && s'.changes == s.changes + (if performed then 1 else 0)
       && s'.snapshot.generation == (if performed then SaturatingSucc(s.snapshot.generation) else s.snapshot.generation)
       && (s'.log == s.log || (s.snapshot.generation == q.stamp && s'.log == s.log + [Ran(q, s.changes, performed)]))
  }

  lemma HandleIsHandled(s: State, q: Stamped, refused: bool)
    requires s.snapshot.operation.None?
    ensures Handled(s, Handle(s, q, refused), q)
  {
  }

  lemma HandleKeeps(s: State, q: Stamped, refused: bool)
    requires s.snapshot.generation == Saturated(s.changes) && LogOk(s.log, s.changes) && StampOk(q, s.changes)
    requires s.snapshot.operation.None?
    ensures var s' := Handle(s, q, refused);
            && s'.snapshot.generation == Saturated(s'.changes) && LogOk(s'.log, s'.changes)
            && Handled(s, s', q)
  {
    hide LogOk, Handle;
    HandleIsHandled(s, q, refused);
    StampTest(s, q);
    var s' := Handle(s, q, refused);
    if s'.log != s.log {
      LogGrows(s.log, Ran(q, s.changes, s'.place.Performing?), s.changes, s'.changes);
    } else {
      ChangesGrow(s.(queue := [], inFlight := []), s'.changes);
    }
  }

  lemma ReceiveKeepsInv(s: State, e: Event)
    requires Inv(s) && e.WorkerStep? && s.place.Receive? && s.queue != []
    ensures Inv(Work(s, e))
  {
    hide LogOk, Handle;
    var s' := Work(s, e);
    var s1 := s.(queue := s.queue[1..], taken := if s.requested then s.taken + 1 else 0);
    HandleKeeps(s1, s.queue[0], e.refused);
    assert StampsOk(s1.queue, s.changes);
    ChangesGrow(s1, s'.changes);
  }

  lemma SwapKeepsInv(s: State, e: Event)
    requires Inv(s) && e.WorkerStep? && s.place.Swap?
    ensures Inv(Work(s, e))
  {
    hide LogOk, StampsOk, Handle;
    ChangesGrow(s, Work(s, e).changes);
  }

  lemma BootKeepsInv(s: State, e: Event)
    requires Inv(s) && e.WorkerStep? && (s.place.Boot? || s.place.Booting?)
    ensures Inv(Work(s, e))
  {
    hide LogOk, StampsOk, Handle;
    ChangesGrow(s, Work(s, e).changes);
  }

  lemma WorkKeepsInv(s: State, e: Event)
    requires Inv(s) && e.WorkerStep?
    ensures Inv(Work(s, e))
  {
    if s.place.Receive? && s.queue != [] {
      ReceiveKeepsInv(s, e);
    } else if s.place.Swap? {
      SwapKeepsInv(s, e);
    } else if s.place.Boot? || s.place.Booting? {
      BootKeepsInv(s, e);
    } else {
      hide LogOk, StampsOk, Handle;
      ChangesGrow(s, Work(s, e).changes);
    }
  }

  lemma StepKeepsInv(s: State, e: Event)
    requires Inv(s)
    ensures Inv(Step(s, e))
  {
    hide LogOk, Work;
    if e.WorkerStep? { WorkKeepsInv(s, e); }
  }

  lemma {:induction false} RunKeepsInv(s: State, es: seq<Event>)
    requires Inv(s)
    ensures Inv(Run(s, es))
    decreases |es|
  {
    if es != [] {
      StepKeepsInv(s, es[0]);
      RunKeepsInv(Step(s, es[0]), es[1..]);
    }
  }

  // ---- What every interleaving satisfies ----

  /** A command that ran was stamped after the last change, as far as a saturating counter can tell; and of
      the commands that share a stamp, none runs after one that performed an operation. */
  lemma CommandsRunOnFreshStamps(es: seq<Event>)
    ensures var log := Run(Initial(), es).log;
            && (forall i :: 0 <= i < |log| ==>
                  log[i].stamped.seen == log[i].at || log[i].stamped.stamp == U64_MAX)
            && (forall i, j :: 0 <= i < j < |log| && log[i].performed ==>
                  log[i].stamped.stamp < log[j].stamped.stamp || log[i].stamped.stamp == U64_MAX)
  {
    RunKeepsInv(Initial(), es);
    var s := Run(Initial(), es);
    forall i, j | 0 <= i < j < |s.log| && s.log[i].performed
      ensures s.log[i].stamped.stamp < s.log[j].stamped.stamp || s.log[i].stamped.stamp == U64_MAX
    {
      assert RanOk(s.log[i], s.changes) && RanOk(s.log[j], s.changes);
    }
    forall i | 0 <= i < |s.log|
      ensures s.log[i].stamped.seen == s.log[i].at || s.log[i].stamped.stamp == U64_MAX
    {
      assert RanOk(s.log[i], s.changes);
    }
  }

  /** A command performs its operation exactly when the client is up, nothing changed since its stamp and it does not
      refuse; beginning and ending it are two changes, and every other outcome is none. */
  lemma OperationIsTwoChanges(s: State, e: Event, e': Event)
    requires Inv(s) && s.place.Receive? && s.queue != [] && e.WorkerStep? && e'.WorkerStep?
    ensures var q, s1 := s.queue[0], Work(s, e);
            && (s1.place.Performing? <==>
                  && s.client && s.snapshot.bootstrap.Ready? && SawLatest(q.seen, s.changes)
                  && OperationOf(q.command).Some? && !(MayRefuse(q.command) && e.refused))
            && (!s1.place.Performing? ==> s1.changes == s.changes && s1.snapshot == s.snapshot)
            && (s1.place.Performing? ==>
                  var s2 := Work(s1, e');
                  && s1.changes == s.changes + 1 && s1.snapshot.operation == OperationOf(q.command)
                  && s2.changes == s.changes + 2 && s2.snapshot.operation.None? && s2.place.Swap?
                  && s2.queue == s1.queue == s.queue[1..])
  {
    StampTest(s, s.queue[0]);
    hide LogOk, StampsOk;
  }

  /** Retrying the bootstrap without a client is two more worker steps, the begin and the end of a bootstrap: two
      changes, initialising in between, and a client exactly if it goes well. With a client it is only taken off. */
  lemma RetryBootstraps(s: State, e: Event, e1: Event, e2: Event)
    requires Inv(s) && s.place.Receive? && s.queue != [] && s.queue[0].command.RetryBootstrap?
    requires e.WorkerStep? && e1.WorkerStep? && e2.WorkerStep?
    ensures var s1 := Work(s, e);
            && s1.queue == s.queue[1..] && s1.snapshot == s.snapshot && s1.changes == s.changes && s1.log == s.log
            && s1.client == s.client && s1.control == s.control && s1.inFlight == s.inFlight
            && (s.client ==> s1.place.Swap?)
            && (!s.client ==>
                  var s2 := Work(s1, e1);
                  var s3 := Work(s2, e2);
                  && s2.snapshot.bootstrap == Initializing && s2.changes == s.changes + 1 && !s2.client
                  && s2.snapshot.generation == Saturated(s.changes + 1)
                  && s3.snapshot.bootstrap == (if e2.bootOk then Ready else Failed) && s3.client == e2.bootOk
                  && s3.changes == s.changes + 2 && s3.snapshot.generation == Saturated(s.changes + 2)
                  && s3.place.Swap? && s3.snapshot.operation.None? && s3.queue == s.queue[1..] && s3.log == s.log)
  {
    hide LogOk, StampsOk, ShutdownOk;
  }

  /** Which commands perform an operation, and which may refuse first. */
  lemma CommandTable(c: Command)
    ensures OperationOf(c).None? <==> c.RetryBootstrap? || c.ClearLogs?
    ensures MayRefuse(c) <==> c.Start? || c.SaveRelayCatalog?
    ensures OperationOf(c) == Some(Starting) <==> c.Start?
    ensures OperationOf(c) == Some(StoppingSession) <==> c.StopSession?
    ensures OperationOf(c) == Some(RefreshingAccounts) <==> c.RefreshAccounts?
    ensures OperationOf(c) == Some(Probing) <==> c.StartReadinessProbe? || c.StartHookReceiveProbe? || c.StartLightPing?
    ensures OperationOf(c) == Some(ReadingInputDelay) <==> c.ReadInputDelay?
    ensures OperationOf(c) == Some(WritingInputDelay) <==> c.WriteInputDelay?
    ensures OperationOf(c) == Some(OpeningLogs) <==> c.OpenLogDirectory?
    ensures OperationOf(c) == Some(ExportingDiagnosticsBundle) <==> c.ExportDiagnosticsBundle?
    ensures OperationOf(c) == Some(ReadingClipboard) <==> c.ReadClipboard?
    ensures OperationOf(c) == Some(SavingRelayCatalog) <==> c.SaveRelayCatalog? || c.SavePreferences?
    ensures OperationOf(c) != Some(LeavingRoom) && OperationOf(c) != Some(ShuttingDown)
  {
  }

  /** Which dequeued commands run, and what the record of them is: with a client every command but a retry that is fresh
      and does not refuse; without one only the opening of the log directory, after a failed bootstrap. */
  lemma CommandRunsIff(s: State, e: Event)
    requires Inv(s) && s.place.Receive? && s.queue != [] && e.WorkerStep?
    ensures var q, s1 := s.queue[0], Work(s, e);
            var current := SawLatest(q.seen, s.changes);
            var runs := if s.client then s.snapshot.bootstrap.Ready? && current && !q.command.RetryBootstrap?
                                         && !(MayRefuse(q.command) && e.refused)
                        else q.command.OpenLogDirectory? && s.snapshot.bootstrap.Failed? && current;
            && s1.log == s.log + (if runs then [Ran(q, s.changes, s1.place.Performing?)] else [])
            && s1.queue == s.queue[1..] && s1.inFlight == s.inFlight && s1.control == s.control && s1.client == s.client
            && (s1.place.Performing? <==> runs && s.client && OperationOf(q.command).Some?)
            && (s1.place.Boot? <==> q.command.RetryBootstrap? && !s.client)
            && (!s1.place.Performing? ==> s1.snapshot == s.snapshot && s1.changes == s.changes)
  {
    StampTest(s, s.queue[0]);
    assert s.log + [] == s.log;
    hide LogOk, StampsOk, ShutdownOk, OperationOf;
    CommandTable(s.queue[0].command);
  }

  /** A submitted command is queued, behind all others, exactly when fewer than sixteen are and the worker lives. */
  lemma SubmitIsExact(s: State, index: nat)
    requires index < |s.inFlight|
    ensures var s' := Step(s, TrySend(index));
            && s'.queue == s.queue + (if |s.queue| < 16 && !s.place.Stopped? then [s.inFlight[index]] else [])
            && s'.inFlight == s.inFlight[..index] + s.inFlight[index + 1..]
            && s' == s.(queue := s'.queue, inFlight := s'.inFlight)
  {
    assert s.queue + [] == s.queue;
  }

  /** A stamp is the generation read and the changes counted at that moment. */
  lemma StampIsExact(s: State, c: Command)
    ensures Step(s, ReadGeneration(c)) == s.(inFlight := s.inFlight + [Stamped(c, s.snapshot.generation, s.changes)])
  {
  }

  /** What the worker finds in the control cell: a leave request is an operation of two changes if there is a client and
      nothing otherwise, a shutdown request ends it in one more step, and the cell is empty afterwards. */
  lemma ControlIsExact(s: State, e: Event, e1: Event)
    requires Inv(s) && s.place.Swap? && e.WorkerStep? && e1.WorkerStep?
    ensures var s1 := Work(s, e);
            var s2 := Work(s1, e1);
            && s1.control.NoRequest? && s1.queue == s.queue && s1.log == s.log && s1.client == s.client
            && (s.control.NoRequest? || (s.control.LeaveRequest? && !s.client) ==>
                  s1.place.Receive? && s1.snapshot == s.snapshot && s1.changes == s.changes)
            && (s.control.LeaveRequest? && s.client ==>
                  && s1.snapshot.operation == Some(LeavingRoom) && s1.changes == s.changes + 1
                  && s2.snapshot.operation == None && s2.changes == s.changes + 2 && s2.place.Receive?)
            && (s.control.ShutdownRequest? ==>
                  && s1.snapshot.operation == Some(ShuttingDown) && s1.changes == s.changes
                  && !s1.snapshot.shutdownComplete
                  && s2.snapshot.operation == None && s2.snapshot.shutdownComplete && s2.place.Stopped?)
  {
    hide LogOk, StampsOk, ShutdownOk, Handle;
  }

  /** With nothing queued the worker waits, looks at the cell again after the timeout, or ends if no sender is left. */
  lemma IdleIsExact(s: State, e: Event)
    requires s.place.Receive? && s.queue == [] && e.WorkerStep?
    ensures Work(s, e) == s.(place := if e.disconnected then Stopped else if e.timedOut then Swap else Receive)
  {
  }

  /** A leave request never displaces a shutdown request; a shutdown request displaces everything. */
  lemma RequestsAreExact(s: State)
    ensures Step(s, LeaveRoom).control == if s.control.ShutdownRequest? then ShutdownRequest else LeaveRequest
    ensures Step(s, RequestShutdown).control == ShutdownRequest
  {
  }

  /** A worker step in which everything goes well. */
  function Well(): Event { WorkerStep(true, true, false, false) }

  /** Once the generation has saturated, two commands with one stamp can both perform. */
  lemma SaturationLetsTwoPerform(s: State)
    requires s.place.Receive? && s.client && |s.queue| == 2 && s.control.NoRequest?
    requires s.snapshot == Snapshot(Ready, None, U64_MAX, false)
    requires forall i :: 0 <= i < 2 ==> s.queue[i].stamp == U64_MAX && s.queue[i].command.StopSession?
    ensures var w := Well();
            var log := Step(Step(Step(Step(s, w), w), w), w).log;
            && |log| == |s.log| + 2 && log[|s.log|].performed && log[|s.log| + 1].performed
            && log[|s.log|].stamped.stamp == log[|s.log| + 1].stamped.stamp == U64_MAX
  {
    var w := Well();
    var s2 := Step(Step(s, w), w);
    assert s2 == s.(queue := s.queue[1..], taken := s2.taken, log := s2.log, changes := s2.changes, place := Swap);
    var s3 := Step(s2, w);
    assert s3 == s2.(place := Receive);
  }

  lemma {:induction false} RunMore(s: State, es: seq<Event>, e: Event)
    ensures Run(s, es + [e]) == Step(Run(s, es), e)
    decreases |es|
  {
    hide Step;
    if es == [] {
      assert (es + [e])[1..] == [];
    } else {
      assert (es + [e])[1..] == es[1..] + [e];
      RunMore(Step(s, es[0]), es[1..], e);
    }
  }

  /** The worker is about to look at the control cell, and nobody has asked it anything. */
  ghost predicate Resting(s: State, changes: nat) {
    && s.place.Swap? && s.client && s.control.NoRequest? && s.queue == [] && s.inFlight == []
    && s.changes == changes && s.snapshot == Snapshot(Ready, None, Saturated(changes), false)
  }

  lemma LeavingIsTwoChanges(s: State, changes: nat)
    requires Resting(s, changes)
    ensures Resting(Step(Step(Step(Step(s, LeaveRoom), Well()), Well()), Well()), changes + 2)
  {
    var s2 := Step(Step(s, LeaveRoom), Well());
    assert s2.place.Leaving? && s2.changes == changes + 1;
    var s3 := Step(s2, Well());
    assert s3.place.Receive? && s3.changes == changes + 2;
  }

  /** Leaving the room again and again takes the count of changes as far as one likes. */
  lemma {:induction false} EveryCountIsReached(n: nat) returns (es: seq<Event>)
    ensures Resting(Run(Initial(), es), 2 + 2 * n)
  {
    if n == 0 {
      es := [] + [Well()] + [Well()];
      RunMore(Initial(), [], Well());
      RunMore(Initial(), [] + [Well()], Well());
      assert Run(Initial(), []) == Initial();
    } else {
      var before := EveryCountIsReached(n - 1);
      es := before + [LeaveRoom] + [Well()] + [Well()] + [Well()];
      LeavingIsTwoChanges(Run(Initial(), before), 2 * n);
      hide Step, Run;
      RunMore(Initial(), before, LeaveRoom);
      RunMore(Initial(), before + [LeaveRoom], Well());
      RunMore(Initial(), before + [LeaveRoom] + [Well()], Well());
      RunMore(Initial(), before + [LeaveRoom] + [Well()] + [Well()], Well());
    }
  }

  /** A run from the start at whose end two commands with one stamp have both performed their operation: the exception
      for a saturated generation is not idle. */
  lemma TwoPerformOnOneStamp() returns (es: seq<Event>)
    ensures var log := Run(Initial(), es).log;
            exists i, j :: 0 <= i < j < |log| && log[i].performed && log[j].performed
                           && log[i].stamped.stamp == log[j].stamped.stamp
  {
    es := EveryCountIsReached(U64_MAX);
    var w, stop := Well(), ReadGeneration(StopSession);
    var t := TwoAreQueued(Run(Initial(), es));
    SaturationLetsTwoPerform(t);
    hide Step, Run;
    ghost var log := Step(Step(Step(Step(t, w), w), w), w).log;
    RunMore(Initial(), es, stop);
    RunMore(Initial(), es + [stop], stop);
    es := es + [stop] + [stop];
    RunMore(Initial(), es, TrySend(0));
    RunMore(Initial(), es + [TrySend(0)], TrySend(0));
    es := es + [TrySend(0)] + [TrySend(0)];
    RunMore(Initial(), es, w);
    es := es + [w];
    assert Run(Initial(), es) == t;
    RunMore(Initial(), es, w);
    RunMore(Initial(), es + [w], w);
    RunMore(Initial(), es + [w] + [w], w);
    RunMore(Initial(), es + [w] + [w] + [w], w);
    es := es + [w] + [w] + [w] + [w];
    assert log[|t.log|].performed && log[|t.log| + 1].performed;
  }

  /** Two submitters read one generation and both get their command into the queue. */
  lemma TwoAreQueued(s: State) returns (t: State)
    requires Resting(s, 2 + 2 * U64_MAX)
    ensures var stop := ReadGeneration(StopSession);
            t == Step(Step(Step(Step(Step(s, stop), stop), TrySend(0)), TrySend(0)), Well())
    ensures t.place.Receive? && t.client && |t.queue| == 2 && t.control.NoRequest?
    ensures t.snapshot == Snapshot(Ready, None, U64_MAX, false)
    ensures forall i :: 0 <= i < 2 ==> t.queue[i].stamp == U64_MAX && t.queue[i].command.StopSession?
  {
    var stop := ReadGeneration(StopSession);
    var q := Stamped(StopSession, U64_MAX, s.changes);
    var s2 := Step(Step(s, stop), stop);
    assert s2 == s.(inFlight := [q, q]);
    var s4 := Step(Step(s2, TrySend(0)), TrySend(0));
    assert s4 == s.(inFlight := [], queue := [q, q]);
    t := Step(s4, Well());
  }

  /** A worker step in which a bootstrap fails. */
  function Ill(): Event { WorkerStep(false, true, false, false) }

  /** The worker is without a client after a failed bootstrap, and nobody has asked it anything. */
  ghost predicate Failing(s: State) {
    && s.place.Swap? && !s.client && s.control.NoRequest? && s.queue == [] && s.inFlight == []
    && s.changes == 2 && s.snapshot == Snapshot(Failed, None, 2, false) && s.log == []
  }

  lemma FirstBootstrapFails() returns (es: seq<Event>)
    ensures Failing(Run(Initial(), es))
  {
    es := [] + [Ill()] + [Ill()];
    RunMore(Initial(), [], Ill());
    RunMore(Initial(), [] + [Ill()], Ill());
    assert Run(Initial(), []) == Initial();
  }

  /** A command submitted to a resting or failing worker is at the head of the queue when it next receives. */
  lemma SubmittedIsReceived(s: State, c: Command) returns (t: State)
    requires s.place.Swap? && s.control.NoRequest? && s.queue == [] && s.inFlight == []
    ensures t == Step(Step(Step(s, ReadGeneration(c)), TrySend(0)), Well())
    ensures t == s.(queue := [Stamped(c, s.snapshot.generation, s.changes)], place := Receive)
  {
    var s1 := Step(s, ReadGeneration(c));
    assert s1.inFlight == [Stamped(c, s.snapshot.generation, s.changes)];
    var s2 := Step(s1, TrySend(0));
    assert s2.inFlight == [] && s2.queue == [Stamped(c, s.snapshot.generation, s.changes)];
    t := Step(s2, Well());
  }

  lemma SubmittedRuns(s: State, es: seq<Event>, c: Command) returns (t: State, es': seq<Event>)
    requires s == Run(Initial(), es) && s.place.Swap? && s.control.NoRequest? && s.queue == [] && s.inFlight == []
    ensures t == Run(Initial(), es')
    ensures t == s.(queue := [Stamped(c, s.snapshot.generation, s.changes)], place := Receive)
  {
    t := SubmittedIsReceived(s, c);
    hide Step, Run;
    RunMore(Initial(), es, ReadGeneration(c));
    RunMore(Initial(), es + [ReadGeneration(c)], TrySend(0));
    RunMore(Initial(), es + [ReadGeneration(c)] + [TrySend(0)], Well());
    es' := es + [ReadGeneration(c)] + [TrySend(0)] + [Well()];
  }

  /** A run from the start: the bootstrap fails, it is retried and succeeds, and then a command performs. */
  lemma RetryThenPerform() returns (es: seq<Event>)
    ensures var s := Run(Initial(), es);
            |s.log| == 1 && s.log[0].performed && s.log[0].stamped.command == StopSession && s.client
  {
    var es0 := FirstBootstrapFails();
    var t, es1 := SubmittedRuns(Run(Initial(), es0), es0, RetryBootstrap);
    var t1 := Step(t, Well());
    assert t1.place.Boot? && t1.queue == [] && t1.log == t.log;
    var t2 := Step(t1, Well());
    var t3 := Step(t2, Well());
    assert t3.place.Swap? && t3.client && t3.snapshot == Snapshot(Ready, None, 4, false) && t3.changes == 4;
    RunMore(Initial(), es1, Well());
    RunMore(Initial(), es1 + [Well()], Well());
    RunMore(Initial(), es1 + [Well()] + [Well()], Well());
    var es2 := es1 + [Well()] + [Well()] + [Well()];
    var u, es3 := SubmittedRuns(t3, es2, StopSession);
    var v := Step(u, Well());
    assert v.log == u.log + [Ran(Stamped(StopSession, 4, 4), 4, true)];
    RunMore(Initial(), es3, Well());
    es := es3 + [Well()];
  }

  /** Nothing runs, changes or is queued once the worker has stopped. */
  lemma {:induction false} NothingRunsAfterStop(s: State, es: seq<Event>)
    requires s.place.Stopped?
    ensures var s' := Run(s, es);
            s'.place.Stopped? && s'.log == s.log && s'.snapshot == s.snapshot && s'.queue == s.queue
    decreases |es|
  {
    if es != [] { NothingRunsAfterStop(Step(s, es[0]), es[1..]); }
  }

  /** How many more commands the worker may run once shutdown was requested. */
  function Allowance(s: State): nat { if s.place.Receive? || s.place.Leaving? then 1 else 0 }

  lemma ShutdownStep(s: State, e: Event)
    requires Inv(s) && s.requested
    ensures var s' := Step(s, e);
            s'.requested && |s'.log| + Allowance(s') <= |s.log| + Allowance(s)
  {
    hide LogOk, StampsOk;
  }

  /** Steps the worker still needs to reach its end once shutdown was requested. */
  function Distance(p: Place): nat {
    match p
    case Stopped => 0
    case Closing => 1
    case Swap => 2
    case Performing => 3
    case Booting => 3
    case Boot => 4
    case Receive => 5
    case Leaving => 6
  }

  function WorkerSteps(es: seq<Event>): nat
    decreases |es|
  {
    if es == [] then 0 else (if es[0].WorkerStep? then 1 else 0) + WorkerSteps(es[1..])
  }

  /** A receive ends by its timeout at the latest, and somebody still holds a sender. */
  ghost predicate Prompt(es: seq<Event>) {
    forall i :: 0 <= i < |es| && es[i].WorkerStep? ==> es[i].timedOut && !es[i].disconnected
  }

  /** A worker that has stopped did so by completing its shutdown. */
  predicate Closes(s: State) { s.place.Stopped? ==> s.snapshot.shutdownComplete }

  lemma ShutdownAdvances(s: State, e: Event)
    requires Inv(s) && s.requested && Closes(s)
    requires e.WorkerStep? ==> e.timedOut && !e.disconnected
    ensures var s' := Step(s, e);
            && Closes(s')
            && Distance(s'.place) <= Distance(s.place)
            && (e.WorkerStep? && !s.place.Stopped? ==> Distance(s'.place) < Distance(s.place))
  {
    hide LogOk, StampsOk;
  }

  /** However leave requests, submissions and worker steps fall, a requested shutdown lets at most one more
      command run; and within six worker steps it is complete, if none of them finds the channel closed. */
  lemma {:induction false} ShutdownIsNeverLost(s: State, es: seq<Event>)
    requires Inv(s) && s.requested
    ensures var s' := Run(s, es);
            && |s'.log| + Allowance(s') <= |s.log| + Allowance(s)
            && (Closes(s) && Prompt(es) && WorkerSteps(es) >= Distance(s.place) ==> s'.snapshot.shutdownComplete)
    decreases |es|
  {
    if es != [] {
      var e, s1 := es[0], Step(s, es[0]);
      StepKeepsInv(s, e);
      ShutdownStep(s, e);
      if Closes(s) && Prompt(es) { ShutdownAdvances(s, e); }
      hide Inv, Step;
      ShutdownIsNeverLost(s1, es[1..]);
    }
  }

  /** The run-level reading: whatever came before, a shutdown request ends the worker. */
  lemma RequestedShutdownCompletes(before: seq<Event>, after: seq<Event>)
    requires !Run(Initial(), before).place.Stopped?
    ensures var s := Step(Run(Initial(), before), RequestShutdown);
            var s' := Run(s, after);
            && |s'.log| <= |s.log| + 1
            && (Prompt(after) && WorkerSteps(after) >= 6 ==> s'.snapshot.shutdownComplete)
  {
    RunKeepsInv(Initial(), before);
    var s := Step(Run(Initial(), before), RequestShutdown);
    StepKeepsInv(Run(Initial(), before), RequestShutdown);
    ShutdownIsNeverLost(s, after);
  }
}
