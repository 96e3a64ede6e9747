/** The shutdown handshake between coordinateShutdown (cmd/api/main.go), the
    signal handler and its second-signal watcher (cmd/api/shutdown.go), and
    server.Serve, over channels, in any interleaving. A send, a receive, a close
    and each return of a blocking call is one step. */
module ShutdownHandshake {
  import opened Text

  /** Why Serve returned: an error of its own, or because the server was shut. */
  datatype Cause = ServeFailed | ServerClosed

  datatype Serve = Serving | Returning(cause: Cause) | Reported

  datatype Handler =
    | AwaitSignal      // <-sigCh
    | PublishStarted   // startedCh <- ctx
    | PublishCancel    // cancelCh <- cancel
    | CallShutdown     // watcher started, before server.Shutdown
    | InShutdown       // inside server.Shutdown
    | AwaitDrain       // Shutdown returned; <-drainDone
    | ReportDrain      // returned; httpErrCh <- result
    | HandlerGone

  datatype Watcher = NotStarted | Watching | WatcherGone

  datatype Coordinator =
    | Selecting        // select on serverErrCh and startedCh
    | Peeking          // Serve's result taken: non-blocking read of startedCh
    | TakeCancel       // <-shutdownCancelCh
    | WaitWorkers      // waitForBackgroundWorkers
    | CloseDrain       // close(drainDoneCh)
    | TakeServeResult  // serverErr, unless taken before
    | TakeDrainResult  // <-httpErrCh
    | CallCancel       // drainCancel()
    | Returned

  /** What the channels hold, and whether drainDoneCh is closed. */
  datatype Channels = Channels(
    pending: bool,                // sigCh buffers a signal
    started: bool,                // startedCh holds the context
    cancel: bool,                 // cancelCh holds the cancel function
    serveResult: Option<Cause>,   // serverErrCh
    drainResult: Option<bool>,    // httpErrCh: whether the drain was late
    drainDone: bool)

  /** The coordinator's variables: the serve result it has read, and whether it
      has called the handed-off cancel and seen an error. */
  datatype Verdict = Verdict(signaled: bool, taken: Option<Cause>, cancelled: bool, failed: bool)

  /** The server: whether Shutdown or Close was called on it, and whether
      Shutdown ran into the deadline. */
  datatype Server = Server(closed: bool, drainLate: bool)

  datatype State = State(
    serve: Serve,
    handler: Handler,
    watcher: Watcher,
    coordinator: Coordinator,
    channels: Channels,
    server: Server,
    verdict: Verdict)

  const INITIAL := State(Serving, AwaitSignal, NotStarted, Selecting, Channels(false, false, false, None, None, false),
                         Server(false, false), Verdict(false, None, false, false))

  /** Signals arrive and Serve fails when they like; every other step is the
      program's, given that Shutdown, Serve and the worker waits return. */
  datatype Step =
    | Signal
    | FailServe
    | ServeReturns
    | ServeReports
    | HandlerStep(late: bool)
    | WatcherCloses
    | WatcherLeaves
    | TakeServe
    | TakeStarted
    | CoordinatorStep(late: bool)

  predicate Environment(step: Step) {
    step == Signal || step == FailServe
  }

  predicate HandlerCanStep(s: State) {
    match s.handler
    case AwaitSignal => s.channels.pending
    case PublishStarted => !s.channels.started
    case PublishCancel => !s.channels.cancel
    case AwaitDrain => s.channels.drainDone
    case ReportDrain => s.channels.drainResult.None?
    case HandlerGone => false
    case _ => true
  }

  predicate CoordinatorCanStep(s: State) {
    match s.coordinator
    case Selecting => false
    case TakeCancel => s.channels.cancel
    case TakeServeResult => s.verdict.taken.Some? || s.channels.serveResult.Some?
    case TakeDrainResult => s.channels.drainResult.Some?
    case Returned => false
    case _ => true
  }

  predicate Enabled(s: State, step: Step) {
    match step
    case Signal => true
    case FailServe => s.serve == Serving
    case ServeReturns => s.serve == Serving && s.server.closed
    case ServeReports => s.serve.Returning? && s.channels.serveResult.None?
    case HandlerStep(_) => HandlerCanStep(s)
    case WatcherCloses => s.watcher == Watching && s.channels.pending
    case WatcherLeaves =>
      s.watcher == Watching && (s.handler == AwaitDrain || s.handler == ReportDrain || s.handler == HandlerGone)
    case TakeServe => s.coordinator == Selecting && s.channels.serveResult.Some?
    case TakeStarted => s.coordinator == Selecting && s.channels.started
    case CoordinatorStep(_) => CoordinatorCanStep(s)
  }

  function HandlerNext(s: State, late: bool): State
    requires HandlerCanStep(s)
  {
    match s.handler
    case AwaitSignal => s.(handler := PublishStarted, channels := s.channels.(pending := false))
    case PublishStarted => s.(handler := PublishCancel, channels := s.channels.(started := true))
    case PublishCancel => s.(handler := CallShutdown, channels := s.channels.(cancel := true), watcher := Watching)
    case CallShutdown => s.(handler := InShutdown, server := s.server.(closed := true))
    case InShutdown => s.(handler := AwaitDrain, server := s.server.(drainLate := late))
    case AwaitDrain => s.(handler := ReportDrain)
    case ReportDrain => s.(handler := HandlerGone, channels := s.channels.(drainResult := Some(s.server.drainLate)))
    case HandlerGone => s
  }

  /** The context was read from startedCh: this is the signal path. */
  function Signaled(s: State): State {
    s.(coordinator := TakeCancel, channels := s.channels.(started := false), verdict := s.verdict.(signaled := true))
  }

  /** The serve result: the one taken earlier, or the one in serverErrCh. */
  function ServeResultTaken(s: State): State {
    if s.verdict.taken.Some? then s
    else s.(channels := s.channels.(serveResult := None), verdict := s.verdict.(taken := s.channels.serveResult))
  }

  function Failing(verdict: Verdict, error: bool): Verdict {
    verdict.(failed := verdict.failed || error)
  }

  function CoordinatorNext(s: State, late: bool): State
    requires CoordinatorCanStep(s)
  {
    match s.coordinator
    case Selecting => s
    case Peeking => if s.channels.started then Signaled(s) else s.(coordinator := WaitWorkers)
    case TakeCancel => s.(coordinator := WaitWorkers, channels := s.channels.(cancel := false))
    case WaitWorkers =>
      s.(coordinator := if s.verdict.signaled then CloseDrain else Returned,
         verdict := Failing(s.verdict, late || s.verdict.taken == Some(ServeFailed)))
    case CloseDrain => s.(coordinator := TakeServeResult, channels := s.channels.(drainDone := true))
    case TakeServeResult =>
      var next := ServeResultTaken(s);
      next.(coordinator := TakeDrainResult, verdict := Failing(next.verdict, next.verdict.taken == Some(ServeFailed)))
    case TakeDrainResult =>
      s.(coordinator := CallCancel, channels := s.channels.(drainResult := None),
         verdict := Failing(s.verdict, s.channels.drainResult == Some(true)))
    case CallCancel => s.(coordinator := Returned, verdict := s.verdict.(cancelled := true))
    case Returned => s
  }

  function Apply(s: State, step: Step): State
    requires Enabled(s, step)
  {
    match step
    case Signal => s.(channels := s.channels.(pending := true))
    case FailServe => s.(serve := Returning(ServeFailed))
    case ServeReturns => s.(serve := Returning(ServerClosed))
    case ServeReports => s.(serve := Reported, channels := s.channels.(serveResult := Some(s.serve.cause)))
    case HandlerStep(late) => HandlerNext(s, late)
    case WatcherCloses =>
      s.(watcher := WatcherGone, channels := s.channels.(pending := false), server := s.server.(closed := true))
    case WatcherLeaves => s.(watcher := WatcherGone)
    case TakeServe =>
      s.(coordinator := Peeking, channels := s.channels.(serveResult := None),
         verdict := s.verdict.(taken := s.channels.serveResult))
    case TakeStarted => Signaled(s)
    case CoordinatorStep(late) => CoordinatorNext(s, late)
  }

  // ---------------------------------------------------------------- invariant

  /** The handler has handed out both its context and its cancel function. */
  predicate Published(h: Handler) {
    h == CallShutdown || h == InShutdown || h == AwaitDrain || h == ReportDrain || h == HandlerGone
  }

  predicate ShutdownReturned(h: Handler) {
    h == AwaitDrain || h == ReportDrain || h == HandlerGone
  }

  predicate Classified(c: Coordinator) {
    c != Selecting && c != Peeking
  }

  predicate AfterClose(c: Coordinator) {
    c == TakeServeResult || c == TakeDrainResult || c == CallCancel
  }

  /** What the channels hold is what was sent and not yet received. */
  predicate ChannelsRight(s: State) {
    && (s.channels.started <==> (s.handler == PublishCancel || Published(s.handler)) && !s.verdict.signaled)
    && (s.channels.cancel <==>
          Published(s.handler) && !(s.verdict.signaled && Classified(s.coordinator) && s.coordinator != TakeCancel))
    && (s.channels.drainResult.None? || s.channels.drainResult == Some(s.server.drainLate))
    && (s.channels.drainResult.Some? <==>
          s.handler == HandlerGone && s.coordinator != CallCancel && !(s.coordinator == Returned && s.verdict.signaled))
    && (s.watcher != NotStarted ==> Published(s.handler))
    && (s.server.closed ==> Published(s.handler))
    && (s.handler == InShutdown || ShutdownReturned(s.handler) ==> s.server.closed)
  }

  /** Serve's result is under way, reported, or taken. */
  predicate ServeRight(s: State) {
    && (s.serve == Serving || s.serve.Returning? ==> s.channels.serveResult.None? && s.verdict.taken.None?)
    && (s.serve == Reported ==> s.channels.serveResult.None? != s.verdict.taken.None?)
    && ((s.channels.serveResult == Some(ServerClosed) || s.verdict.taken == Some(ServerClosed) ||
         s.serve == Returning(ServerClosed)) ==> s.server.closed)
  }

  predicate CoordinatorRight(s: State) {
    && (s.coordinator == Selecting ==> !s.verdict.signaled && s.verdict.taken.None?)
    && (s.coordinator == Peeking ==> !s.verdict.signaled && s.verdict.taken.Some?)
    && (s.coordinator == TakeCancel ==> s.verdict.signaled)
    && (s.verdict.signaled ==> s.handler == PublishCancel || Published(s.handler))
    && (s.coordinator == CloseDrain || AfterClose(s.coordinator) ==> s.verdict.signaled)
    && (s.verdict.signaled && Classified(s.coordinator) && s.coordinator != TakeCancel ==> Published(s.handler))
    && (s.channels.drainDone <==> AfterClose(s.coordinator) || (s.coordinator == Returned && s.verdict.signaled))
    && (s.handler == ReportDrain || s.handler == HandlerGone ==> s.channels.drainDone)
    && (s.coordinator == CallCancel || (s.coordinator == Returned && s.verdict.signaled) ==> s.handler == HandlerGone)
    && (s.coordinator == TakeDrainResult || s.coordinator == CallCancel ==> s.verdict.taken.Some?)
    && (Classified(s.coordinator) && !s.verdict.signaled ==> s.verdict.taken.Some? && s.verdict.taken != Some(ServerClosed))
    && (s.verdict.cancelled <==> s.coordinator == Returned && s.verdict.signaled)
    && (s.coordinator == Returned ==> s.verdict.taken.Some?)
  }

  /** A failed serve and a late drain are not lost. */
  predicate VerdictRight(s: State) {
    && (s.coordinator == CloseDrain || AfterClose(s.coordinator) || s.coordinator == Returned ==>
          s.verdict.taken == Some(ServeFailed) ==> s.verdict.failed)
    && (s.coordinator == CallCancel || (s.coordinator == Returned && s.verdict.signaled) ==>
          s.server.drainLate ==> s.verdict.failed)
  }

  predicate Invariant(s: State) {
    ChannelsRight(s) && ServeRight(s) && CoordinatorRight(s) && VerdictRight(s)
  }

  lemma HandlerKeeps(s: State, late: bool)
    requires Invariant(s) && HandlerCanStep(s)
    ensures Invariant(HandlerNext(s, late))
  {
  }

  lemma CoordinatorKeeps(s: State, late: bool)
    requires Invariant(s) && CoordinatorCanStep(s)
    ensures Invariant(CoordinatorNext(s, late))
  {
  }

  lemma StepKeepsInvariant(s: State, step: Step)
    requires Invariant(s) && Enabled(s, step)
    ensures Invariant(Apply(s, step))
  {
    match step {
      case HandlerStep(late) => HandlerKeeps(s, late);
      case CoordinatorStep(late) => CoordinatorKeeps(s, late);
      case _ =>
    }
  }

  // ---------------------------------------------------------------- runs

  ghost predicate Run(steps: seq<Step>, states: seq<State>) {
    && |states| == |steps| + 1 && states[0] == INITIAL
    && forall i :: 0 <= i < |steps| ==> Takes(steps, states, i)
  }

  ghost predicate Takes(steps: seq<Step>, states: seq<State>, i: nat)
    requires i < |steps| && |states| == |steps| + 1
  {
    Enabled(states[i], steps[i]) && states[i + 1] == Apply(states[i], steps[i])
  }

  lemma {:induction false} RunKeepsInvariant(steps: seq<Step>, states: seq<State>, i: nat)
    requires Run(steps, states) && i < |states|
    ensures Invariant(states[i])
  {
    if i > 0 {
      RunKeepsInvariant(steps, states, i - 1);
      assert Takes(steps, states, i - 1);
      StepKeepsInvariant(states[i - 1], steps[i - 1]);
    }
  }

  /** A Serve return caused by the handler is always classified as signaled:
      once the coordinator has decided otherwise, Serve failed on its own. */
  lemma ClassifiedRight(steps: seq<Step>, states: seq<State>, i: nat)
    requires Run(steps, states) && i < |states| && Classified(states[i].coordinator)
    ensures states[i].verdict.taken == Some(ServerClosed) ==> states[i].verdict.signaled
    ensures !states[i].verdict.signaled ==> states[i].verdict.taken == Some(ServeFailed)
  {
    RunKeepsInvariant(steps, states, i);
    var taken := states[i].verdict.taken;
    assert taken.Some? ==> taken.value == ServeFailed || taken.value == ServerClosed;
  }

  /** The handed-off cancel is called only after server.Shutdown returned, and
      by then its result has been collected. */
  lemma CancelAfterShutdown(steps: seq<Step>, states: seq<State>, i: nat)
    requires Run(steps, states) && i < |states|
    ensures states[i].verdict.cancelled ==> ShutdownReturned(states[i].handler)
    ensures states[i].coordinator == CallCancel ==> states[i].handler == HandlerGone
  {
    RunKeepsInvariant(steps, states, i);
  }

  /** The exit reports every error: a serve failure, a drain past the deadline
      after a signal, and any exit without a signal. */
  lemma ErrorsReported(steps: seq<Step>, states: seq<State>, i: nat)
    requires Run(steps, states) && i < |states| && states[i].coordinator == Returned
    ensures states[i].verdict.taken == Some(ServeFailed) ==> states[i].verdict.failed
    ensures states[i].verdict.signaled && states[i].server.drainLate ==> states[i].verdict.failed
    ensures !states[i].verdict.signaled ==> states[i].verdict.failed
  {
    RunKeepsInvariant(steps, states, i);
    ClassifiedRight(steps, states, i);
  }

  /** And only errors: a run in which Serve never fails on its own and neither the
      drain nor the workers are late ends without one. */
  predicate Clean(step: Step) {
    step != FailServe && step != HandlerStep(true) && step != CoordinatorStep(true)
  }

  predicate NothingWrong(s: State) {
    && !s.verdict.failed && !s.server.drainLate && s.channels.drainResult != Some(true)
    && s.serve != Returning(ServeFailed) && s.channels.serveResult != Some(ServeFailed)
    && s.verdict.taken != Some(ServeFailed)
  }

  lemma {:induction false} CleanRunsReportNothing(steps: seq<Step>, states: seq<State>, i: nat)
    requires Run(steps, states) && i < |states| && forall k :: 0 <= k < i ==> Clean(steps[k])
    ensures NothingWrong(states[i])
  {
    if i > 0 {
      CleanRunsReportNothing(steps, states, i - 1);
      assert Takes(steps, states, i - 1);
      assert Clean(steps[i - 1]);
    }
  }

  lemma {:induction false} LateDrainStays(steps: seq<Step>, states: seq<State>, i: nat, j: nat)
    requires Run(steps, states) && i < j < |states| && states[i].handler == InShutdown && steps[i] == HandlerStep(true)
    ensures states[j].server.drainLate && ShutdownReturned(states[j].handler)
    decreases j
  {
    assert Takes(steps, states, j - 1);
    if i + 1 < j {
      LateDrainStays(steps, states, i, j - 1);
    }
  }

  /** Serve failed on its own, and its result is on its way or has arrived. */
  predicate ServeFailedSince(s: State) {
    s.serve == Returning(ServeFailed) ||
    (s.serve == Reported && (s.channels.serveResult == Some(ServeFailed) || s.verdict.taken == Some(ServeFailed)))
  }

  lemma {:induction false} FailureTravels(steps: seq<Step>, states: seq<State>, i: nat, j: nat)
    requires Run(steps, states) && i < j < |states| && steps[i] == FailServe
    ensures ServeFailedSince(states[j])
    decreases j
  {
    assert Takes(steps, states, j - 1);
    RunKeepsInvariant(steps, states, j - 1);
    if i + 1 < j {
      FailureTravels(steps, states, i, j - 1);
    }
  }

  /** What went wrong is reported whenever the coordinator returns: a server that
      failed on its own, and a drain past its deadline. */
  lemma FailuresReported(steps: seq<Step>, states: seq<State>, i: nat, j: nat)
    requires Run(steps, states) && i < j < |states| && states[j].coordinator == Returned
    requires steps[i] == FailServe || (states[i].handler == InShutdown && steps[i] == HandlerStep(true))
    ensures states[j].verdict.failed
  {
    ErrorsReported(steps, states, j);
    RunKeepsInvariant(steps, states, j);
    if steps[i] == FailServe {
      FailureTravels(steps, states, i, j);
    } else {
      LateDrainStays(steps, states, i, j);
    }
  }

  /** A signal that arrives while none has been handled starts the shutdown. */
  lemma SignalStarts(steps: seq<Step>, states: seq<State>, i: nat)
    requires Run(steps, states) && i < |steps| && steps[i] == Signal
    ensures states[i + 1].channels.pending && Begun(states[i + 1])
    ensures states[i].handler == AwaitSignal ==>
              Enabled(states[i + 1], HandlerStep(false)) &&
              Apply(states[i + 1], HandlerStep(false)).handler == PublishStarted
  {
    assert Takes(steps, states, i);
  }

  /** Workers that are late are reported too, and no error is forgotten. */
  lemma {:induction false} LateWorkersReported(steps: seq<Step>, states: seq<State>, i: nat, j: nat)
    requires Run(steps, states) && i < j < |states|
    requires states[i].coordinator == WaitWorkers && steps[i] == CoordinatorStep(true)
    ensures states[j].verdict.failed
    decreases j
  {
    assert Takes(steps, states, j - 1);
    if i + 1 < j {
      LateWorkersReported(steps, states, i, j - 1);
    }
  }

  /** After a signal the coordinator does not return before it has called the
      handed-off cancel. */
  lemma SignaledExitCancels(steps: seq<Step>, states: seq<State>, i: nat)
    requires Run(steps, states) && i < |states| && states[i].coordinator == Returned
    ensures states[i].verdict.cancelled <==> states[i].verdict.signaled
  {
    RunKeepsInvariant(steps, states, i);
  }

  /** A second signal, once the handler has started its watcher, closes the server
      at once. */
  lemma SecondSignalCloses(steps: seq<Step>, states: seq<State>, i: nat)
    requires Run(steps, states) && i < |states| && states[i].watcher == Watching && states[i].channels.pending
    ensures Enabled(states[i], WatcherCloses) && Apply(states[i], WatcherCloses).server.closed
    ensures !Apply(states[i], WatcherCloses).channels.pending
  {
    RunKeepsInvariant(steps, states, i);
  }

  // ---------------------------------------------------------------- progress

  /** A shutdown is under way. */
  predicate Begun(s: State) {
    s.channels.pending || s.serve != Serving || s.handler != AwaitSignal || s.coordinator != Selecting
  }

  function ServeRank(serve: Serve): nat {
    match serve case Serving => 2 case Returning(_) => 1 case Reported => 0
  }

  function HandlerRank(handler: Handler): nat {
    match handler
    case AwaitSignal => 7
    case PublishStarted => 6
    case PublishCancel => 5
    case CallShutdown => 4
    case InShutdown => 3
    case AwaitDrain => 2
    case ReportDrain => 1
    case HandlerGone => 0
  }

  function WatcherRank(watcher: Watcher): nat {
    match watcher case NotStarted => 2 case Watching => 1 case WatcherGone => 0
  }

  function CoordinatorRank(coordinator: Coordinator): nat {
    match coordinator
    case Selecting => 8
    case Peeking => 7
    case TakeCancel => 6
    case WaitWorkers => 5
    case CloseDrain => 4
    case TakeServeResult => 3
    case TakeDrainResult => 2
    case CallCancel => 1
    case Returned => 0
  }

  /** Every step but a signal's arrival brings the end closer. */
  function Measure(s: State): nat {
    ServeRank(s.serve) + HandlerRank(s.handler) + WatcherRank(s.watcher) + CoordinatorRank(s.coordinator)
  }

  lemma HandlerRunsOut(s: State, late: bool)
    requires HandlerCanStep(s) && (s.handler == PublishCancel ==> s.watcher == NotStarted)
    ensures Measure(HandlerNext(s, late)) < Measure(s)
  {
  }

  lemma CoordinatorRunsOut(s: State, late: bool)
    requires CoordinatorCanStep(s)
    ensures Measure(CoordinatorNext(s, late)) < Measure(s)
  {
  }

  lemma StepsRunOut(s: State, step: Step)
    requires Invariant(s) && Enabled(s, step)
    ensures if step == Signal then Measure(Apply(s, step)) == Measure(s) else Measure(Apply(s, step)) < Measure(s)
  {
    match step {
      case HandlerStep(late) => HandlerRunsOut(s, late);
      case CoordinatorStep(late) => CoordinatorRunsOut(s, late);
      case _ =>
    }
  }

  /** A shutdown once begun goes on. */
  lemma StaysBegun(s: State, step: Step)
    requires Invariant(s) && Enabled(s, step) && Begun(s)
    ensures Begun(Apply(s, step))
  {
    match step {
      case HandlerStep(late) => assert HandlerNext(s, late).handler != AwaitSignal;
      case CoordinatorStep(late) => assert CoordinatorNext(s, late).coordinator != Selecting;
      case _ =>
    }
  }

  /** No reachable state of a shutdown leaves the coordinator blocked forever:
      until it returns, some step of the program can be taken. */
  lemma NeverStuck(steps: seq<Step>, states: seq<State>, i: nat)
    requires Run(steps, states) && i < |states|
    requires Begun(states[i]) && states[i].coordinator != Returned
    ensures exists step :: !Environment(step) && Enabled(states[i], step)
  {
    RunKeepsInvariant(steps, states, i);
    ProgramCanStep(states[i]);
  }

  lemma ProgramCanStep(s: State)
    requires Invariant(s) && Begun(s) && s.coordinator != Returned
    ensures exists step :: !Environment(step) && Enabled(s, step)
  {
    if HandlerCanStep(s) {
      assert Enabled(s, HandlerStep(false));
    } else if CoordinatorCanStep(s) {
      assert Enabled(s, CoordinatorStep(false));
    } else if s.coordinator == Selecting {
      assert s.channels.started ==> Enabled(s, TakeStarted);
      assert s.channels.serveResult.Some? ==> Enabled(s, TakeServe);
      assert s.serve.Returning? ==> Enabled(s, ServeReports);
    } else {
      assert s.serve.Returning? ==> Enabled(s, ServeReports);
      assert s.serve == Serving && s.server.closed ==> Enabled(s, ServeReturns);
    }
  }

  /** Steps of a run that are not arriving signals. */
  function Moves(steps: seq<Step>): nat {
    if steps == [] then 0
    else Moves(steps[..|steps| - 1]) + if steps[|steps| - 1] == Signal then 0 else 1
  }

  /** A whole run has at most 19 steps besides signals, so the coordinator of a
      shutdown that has begun returns. */
  lemma {:induction false} RunsAreShort(steps: seq<Step>, states: seq<State>, i: nat)
    requires Run(steps, states) && i <= |steps|
    ensures Moves(steps[..i]) + Measure(states[i]) <= 19
  {
    if i > 0 {
      RunsAreShort(steps, states, i - 1);
      RunKeepsInvariant(steps, states, i - 1);
      assert Takes(steps, states, i - 1);
      StepsRunOut(states[i - 1], steps[i - 1]);
      assert steps[..i][..i - 1] == steps[..i - 1];
    }
  }

  /** Signals may come at any time, and Serve may fail as long as it serves; a
      watcher without a second signal leaves once Shutdown has returned. */
  lemma EnvironmentIsFree(s: State)
    ensures Enabled(s, Signal)
    ensures s.serve == Serving ==> Enabled(s, FailServe)
    ensures s.watcher == Watching && ShutdownReturned(s.handler) ==> Enabled(s, WatcherLeaves)
  {
  }
}
