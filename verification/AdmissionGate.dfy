/** The sync admission gate (internal/usecase/master_data_sync_usecase.go):
    sync, StartSync, CloseAdmission and Wait sharing the syncRunning flag, the
    admissionClosed flag and the WaitGroup, in any interleaving. A section held
    under admitMu is one step, and so is each atomic operation. */
module AdmissionGates {

  /** Where a call stands. Sync calls add to the WaitGroup and then try the
      flag; StartSync calls try the flag and then add. */
  datatype Pc =
    | SyncBegin        // before tryAdmitSyncWorker
    | SyncAdmitted     // added, before the compare-and-swap
    | SyncBusy         // added, flag taken by another call: only Done is left
    | StartBegin       // before the compare-and-swap
    | StartFlagged     // flag taken, before tryAdmitSyncWorker
    | StartRefused     // admission closed: the flag is still to be cleared
    | Running          // inside syncLeased
    | Finished         // flag cleared by the deferred store, Done is left
    | WaitBegin        // before CloseAdmission
    | Waiting          // admission closed, blocked on the WaitGroup
    | WaitReturned
    | Left

  datatype State = State(calls: map<nat, Pc>, closed: bool, running: bool, group: int)

  const INITIAL := State(map[], false, false, 0)

  datatype Step = Call(id: nat, entry: Pc) | CloseAdmission | Advance(id: nat)

  predicate Entry(pc: Pc) {
    pc == SyncBegin || pc == StartBegin || pc == WaitBegin
  }

  predicate Enabled(s: State, step: Step) {
    match step
    case Call(id, entry) => id !in s.calls && Entry(entry)
    case CloseAdmission => true
    case Advance(id) =>
      id in s.calls && s.calls[id] != Left && s.calls[id] != WaitReturned && (s.calls[id] == Waiting ==> s.group == 0)
  }

  function At(s: State, id: nat, pc: Pc): State {
    s.(calls := s.calls[id := pc])
  }

  function Apply(s: State, step: Step): State
    requires Enabled(s, step)
  {
    match step
    case Call(id, entry) => At(s, id, entry)
    case CloseAdmission => s.(closed := true)
    case Advance(id) =>
      match s.calls[id]
      case SyncBegin => if s.closed then At(s, id, Left) else At(s.(group := s.group + 1), id, SyncAdmitted)
      case SyncAdmitted => if s.running then At(s, id, SyncBusy) else At(s.(running := true), id, Running)
      case SyncBusy => At(s.(group := s.group - 1), id, Left)
      case StartBegin => if s.running then At(s, id, Left) else At(s.(running := true), id, StartFlagged)
      case StartFlagged => if s.closed then At(s, id, StartRefused) else At(s.(group := s.group + 1), id, Running)
      case StartRefused => At(s.(running := false), id, Left)
      case Running => At(s.(running := false), id, Finished)
      case Finished => At(s.(group := s.group - 1), id, Left)
      case WaitBegin => At(s.(closed := true), id, Waiting)
      case Waiting => At(s, id, WaitReturned)
      case _ => s
  }

  // ---------------------------------------------------------------- invariant

  /** Admitted and not yet done. */
  predicate IsAdmitted(pc: Pc) {
    pc == SyncAdmitted || pc == SyncBusy || pc == Running || pc == Finished
  }

  /** The call that took the flag and has not cleared it. */
  predicate HoldsFlag(pc: Pc) {
    pc == StartFlagged || pc == StartRefused || pc == Running
  }

  function Admitted(s: State): set<nat> {
    set id | id in s.calls && IsAdmitted(s.calls[id])
  }

  predicate FlagHolder(s: State, id: nat) {
    id in s.calls && HoldsFlag(s.calls[id])
  }

  predicate WaitDone(s: State) {
    exists id :: id in s.calls && s.calls[id] == WaitReturned
  }

  ghost predicate GroupCounts(s: State) {
    s.group == |Admitted(s)|
  }

  ghost predicate OneHolder(s: State) {
    && (forall i, j :: FlagHolder(s, i) && FlagHolder(s, j) ==> i == j)
    && (s.running <==> exists i :: FlagHolder(s, i))
  }

  predicate ShutFor(s: State, id: nat) {
    id in s.calls && (s.calls[id] == Waiting || s.calls[id] == WaitReturned) ==> s.closed
  }

  ghost predicate GateShut(s: State) {
    && (forall id :: ShutFor(s, id))
    && (WaitDone(s) ==> s.closed && Admitted(s) == {})
  }

  ghost predicate Invariant(s: State) {
    GroupCounts(s) && OneHolder(s) && GateShut(s)
  }

  lemma Moved(s: State, id: nat, pc: Pc)
    ensures Admitted(At(s, id, pc))
         == if IsAdmitted(pc) then Admitted(s) + {id} else Admitted(s) - {id}
  {
  }

  /** A new call, or a closed gate, counts nothing and takes no flag. */
  lemma EntryEffect(s: State, step: Step)
    requires Enabled(s, step) && !step.Advance?
    ensures var after := Apply(s, step);
            && Admitted(after) == Admitted(s) && after.group == s.group && after.running == s.running
            && (s.closed ==> after.closed)
            && (forall i :: FlagHolder(after, i) <==> FlagHolder(s, i))
            && (forall i :: ShutFor(s, i) ==> ShutFor(after, i))
            && (WaitDone(after) ==> WaitDone(s))
  {
    if step.Call? {
      Moved(s, step.id, step.entry);
      assert step.id !in Admitted(s);
    }
  }

  /** What one step does to the calls counted and to the flag's holder. */
  lemma AdvanceEffect(s: State, id: nat)
    requires Enabled(s, Advance(id))
    ensures var after := Apply(s, Advance(id));
            var pc := after.calls[id];
            && Admitted(after) == (if IsAdmitted(pc) then Admitted(s) + {id} else Admitted(s) - {id})
            && after.group == s.group + (if IsAdmitted(pc) then 1 else 0) - (if IsAdmitted(s.calls[id]) then 1 else 0)
            && (forall i :: FlagHolder(after, i) <==> if i == id then HoldsFlag(pc) else FlagHolder(s, i))
  {
    var after := Apply(s, Advance(id));
    var pc := after.calls[id];
    OnlyItsCallMoves(s, id);
    Moved(s, id, pc);
    assert Admitted(after) == Admitted(At(s, id, pc));
  }

  lemma OnlyItsCallMoves(s: State, id: nat)
    requires Enabled(s, Advance(id))
    ensures var after := Apply(s, Advance(id));
            && id in after.calls && after.calls == s.calls[id := after.calls[id]]
            && after.group == s.group + (if IsAdmitted(after.calls[id]) then 1 else 0) - (if IsAdmitted(s.calls[id]) then 1 else 0)
  {
  }

  lemma CountKept(s: State, id: nat)
    requires GroupCounts(s) && Enabled(s, Advance(id))
    ensures GroupCounts(Apply(s, Advance(id)))
  {
    AdvanceEffect(s, id);
    assert id in Admitted(s) <==> IsAdmitted(s.calls[id]);
  }

  lemma FlagKept(s: State, id: nat)
    requires OneHolder(s) && Enabled(s, Advance(id))
    ensures OneHolder(Apply(s, Advance(id)))
  {
    AdvanceEffect(s, id);
    var after := Apply(s, Advance(id));
    assert FlagHolder(after, id) <==> HoldsFlag(after.calls[id]);
    assert FlagHolder(s, id) <==> HoldsFlag(s.calls[id]);
    if s.running {
      var holder :| FlagHolder(s, holder);
      assert FlagHolder(after, holder) <==> holder != id || HoldsFlag(after.calls[id]);
    }
  }

  lemma ShutKept(s: State, id: nat)
    requires Invariant(s) && Enabled(s, Advance(id))
    ensures GateShut(Apply(s, Advance(id)))
  {
    var after := Apply(s, Advance(id));
    assert ShutFor(s, id);
    forall i ensures ShutFor(after, i) {
      assert ShutFor(s, i);
    }
    if WaitDone(after) {
      var i :| i in after.calls && after.calls[i] == WaitReturned;
      assert ShutFor(s, i);
      NoneAdmitted(s, id, i);
      AdvanceEffect(s, id);
    }
  }

  /** When a wait is over or ending, nobody is admitted, and nobody gets in. */
  lemma NoneAdmitted(s: State, id: nat, waiter: nat)
    requires Invariant(s) && Enabled(s, Advance(id)) && s.closed
    requires waiter in s.calls && (s.calls[waiter] == WaitReturned || (waiter == id && s.calls[id] == Waiting))
    ensures Admitted(s) == {} && !IsAdmitted(Apply(s, Advance(id)).calls[id])
  {
    assert WaitDone(s) || s.group == 0;
    assert id in Admitted(s) <==> IsAdmitted(s.calls[id]);
  }

  lemma StepKeepsInvariant(s: State, step: Step)
    requires Invariant(s) && Enabled(s, step)
    ensures Invariant(Apply(s, step))
  {
    if step.Advance? {
      CountKept(s, step.id);
      FlagKept(s, step.id);
      ShutKept(s, step.id);
    } else {
      EntryEffect(s, step);
    }
  }

  // ---------------------------------------------------------------- runs

  ghost predicate Run(steps: seq<Step>, states: seq<State>) {
    && |states| == |steps| + 1 && states[0] == INITIAL
    && forall i :: 0 <= i < |steps| ==> Takes(steps, states, i)
  }

  ghost predicate Takes(steps: seq<Step>, states: seq<State>, i: nat)
    requires i < |steps| && |states| == |steps| + 1
  {
    Enabled(states[i], steps[i]) && states[i + 1] == Apply(states[i], steps[i])
  }

  lemma {:induction false} RunKeepsInvariant(steps: seq<Step>, states: seq<State>, i: nat)
    requires Run(steps, states) && i < |states|
    ensures Invariant(states[i])
  {
    if i == 0 {
      assert Admitted(INITIAL) == {};
    } else {
      RunKeepsInvariant(steps, states, i - 1);
      assert Takes(steps, states, i - 1);
      StepKeepsInvariant(states[i - 1], steps[i - 1]);
    }
  }

  /** At most one call is inside syncLeased at any time. */
  lemma OneRuns(steps: seq<Step>, states: seq<State>, n: nat, i: nat, j: nat)
    requires Run(steps, states) && n < |states|
    requires i in states[n].calls && j in states[n].calls
    requires states[n].calls[i] == Running && states[n].calls[j] == Running
    ensures i == j
  {
    RunKeepsInvariant(steps, states, n);
    assert FlagHolder(states[n], i) && FlagHolder(states[n], j);
  }

  /** Whoever clears the flag is the call that set it: a refused caller never
      clears another's. */
  lemma FlagClearedByItsHolder(steps: seq<Step>, states: seq<State>, n: nat)
    requires Run(steps, states) && n < |steps| && states[n].running && !states[n + 1].running
    ensures steps[n].Advance? && FlagHolder(states[n], steps[n].id)
    ensures forall i :: FlagHolder(states[n], i) ==> i == steps[n].id
  {
    RunKeepsInvariant(steps, states, n);
    assert Takes(steps, states, n);
    assert steps[n].Advance?;
    assert FlagHolder(states[n], steps[n].id);
  }

  /** The WaitGroup counts exactly the admitted and unfinished calls, so Done
      never takes it below zero. */
  lemma GroupCountsAdmitted(steps: seq<Step>, states: seq<State>, n: nat)
    requires Run(steps, states) && n < |states|
    ensures states[n].group == |Admitted(states[n])| >= 0
  {
    RunKeepsInvariant(steps, states, n);
  }

  lemma {:induction false} WaitStaysDone(steps: seq<Step>, states: seq<State>, m: nat, n: nat)
    requires Run(steps, states) && m <= n < |states| && WaitDone(states[m])
    ensures WaitDone(states[n])
    decreases n
  {
    if m < n {
      WaitStaysDone(steps, states, m, n - 1);
      assert Takes(steps, states, n - 1);
      var id :| id in states[n - 1].calls && states[n - 1].calls[id] == WaitReturned;
      assert states[n].calls[id] == WaitReturned;
    }
  }

  /** Once a Wait has returned, no call is admitted or running, then or ever
      after. */
  lemma NoneAfterWait(steps: seq<Step>, states: seq<State>, m: nat, n: nat, id: nat)
    requires Run(steps, states) && m <= n < |states| && WaitDone(states[m]) && id in states[n].calls
    ensures !IsAdmitted(states[n].calls[id])
  {
    WaitStaysDone(steps, states, m, n);
    RunKeepsInvariant(steps, states, n);
    assert id !in Admitted(states[n]);
  }

  // ---------------------------------------------------------------- who gets in

  /** A call is turned away only by a closed gate or a flag another call holds,
      and otherwise goes on. */
  lemma TurnedAwayOnlyFor(steps: seq<Step>, states: seq<State>, n: nat, id: nat)
    requires Run(steps, states) && n < |steps| && steps[n] == Advance(id)
    ensures id in states[n].calls && id in states[n + 1].calls
    ensures var s, next := states[n], states[n + 1].calls[id];
            var taken := exists other :: other != id && FlagHolder(s, other);
            match s.calls[id]
            case SyncBegin => next == if s.closed then Left else SyncAdmitted
            case SyncAdmitted => next == if taken then SyncBusy else Running
            case StartBegin => next == if taken then Left else StartFlagged
            case StartFlagged => next == if s.closed then StartRefused else Running
            case _ => true
  {
    RunKeepsInvariant(steps, states, n);
    assert Takes(steps, states, n);
    var s := states[n];
    if s.running {
      var holder :| FlagHolder(s, holder);
      assert holder == id || (exists other :: other != id && FlagHolder(s, other));
    }
  }

  lemma {:induction false} StaysClosed(steps: seq<Step>, states: seq<State>, m: nat, n: nat)
    requires Run(steps, states) && m <= n < |states| && states[m].closed
    ensures states[n].closed
    decreases n
  {
    if m < n {
      StaysClosed(steps, states, m, n - 1);
      assert Takes(steps, states, n - 1);
    }
  }

  /** Once admission is closed, by CloseAdmission or by Wait, no further call is
      admitted. */
  lemma {:induction false} NoneAdmittedOnceClosed(steps: seq<Step>, states: seq<State>, m: nat, n: nat, id: nat)
    requires Run(steps, states) && m <= n < |states| && id in Admitted(states[n])
    requires states[m].closed || (0 < m && steps[m - 1].CloseAdmission?)
    ensures id in Admitted(states[m])
    decreases n
  {
    if 0 < m {
      assert Takes(steps, states, m - 1);
    }
    if m < n {
      StaysClosed(steps, states, m, n - 1);
      assert Takes(steps, states, n - 1);
      NoneAdmittedOnceClosed(steps, states, m, n - 1, id);
    }
  }

  function Rank(pc: Pc): nat {
    match pc
    case SyncBegin => 4
    case SyncAdmitted => 3
    case SyncBusy => 1
    case StartBegin => 4
    case StartFlagged => 3
    case StartRefused => 1
    case Running => 2
    case Finished => 1
    case WaitBegin => 2
    case Waiting => 1
    case WaitReturned => 0
    case Left => 0
  }

  /** Every call ends: each of its steps brings its end closer and moves no other
      call; and until then it can take one, a waiting call once nobody is
      admitted. */
  lemma CallsEnd(steps: seq<Step>, states: seq<State>, n: nat, id: nat)
    requires Run(steps, states) && n < |states| && id in states[n].calls
    ensures Rank(states[n].calls[id]) > 0 ==>
              (Enabled(states[n], Advance(id)) <==> states[n].calls[id] != Waiting || Admitted(states[n]) == {})
    ensures Enabled(states[n], Advance(id)) ==>
              var after := Apply(states[n], Advance(id)).calls;
              && id in after && Rank(after[id]) < Rank(states[n].calls[id])
              && forall other :: other in states[n].calls && other != id ==>
                   other in after && after[other] == states[n].calls[other]
  {
    RunKeepsInvariant(steps, states, n);
  }

  /** Calls of every kind come at any time, and admission may be closed at any. */
  lemma CallersAreFree(s: State, id: nat)
    requires id !in s.calls
    ensures Enabled(s, Call(id, SyncBegin)) && Enabled(s, Call(id, StartBegin)) && Enabled(s, Call(id, WaitBegin))
    ensures Apply(s, Call(id, SyncBegin)).calls == s.calls[id := SyncBegin]
    ensures Enabled(s, CloseAdmission) && Apply(s, CloseAdmission).closed
  {
  }
}
