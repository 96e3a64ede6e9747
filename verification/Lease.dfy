/** The sync lease row (internal/repository/master_data_sync_lease_repository.go):
    each decision is one compare-and-swap statement on one row. */
module Leases {
  import opened Text

  /** A row of master_data_sync_leases; times are whatever the caller's clock says. */
  datatype LeaseRow = LeaseRow(holder: string, token: nat, expires: int)

  /** The insert, or the update guarded by `expires_at <= now`; None when an
      unexpired owner holds the lease. */
  function Acquired(row: Option<LeaseRow>, holder: string, now: int, ttl: nat): Option<LeaseRow> {
    if row.None? then Some(LeaseRow(holder, 1, now + ttl))
    else if row.value.expires <= now then Some(LeaseRow(holder, row.value.token + 1, now + ttl))
    else None
  }

  predicate HeldBy(row: Option<LeaseRow>, holder: string) {
    row.Some? && row.value.holder == holder
  }

  function Renewed(row: Option<LeaseRow>, holder: string, now: int, ttl: nat): Option<LeaseRow> {
    if HeldBy(row, holder) then Some(row.value.(expires := now + ttl)) else row
  }

  function Released(row: Option<LeaseRow>, holder: string, now: int): Option<LeaseRow> {
    if HeldBy(row, holder) then Some(row.value.(expires := now)) else row
  }

  class LeaseRepository {
    var row: Option<LeaseRow>

    constructor ()
      ensures row == None
    {
      row := None;
    }

    /** Token, and whether the lease was acquired. A racer that loses changes
        nothing; a winner always gets a token no one had before. */
    method Acquire(holder: string, now: int, ttl: nat) returns (token: nat, acquired: bool)
      modifies this
      ensures acquired <==> old(row).None? || old(row).value.expires <= now
      ensures acquired ==> row == Some(LeaseRow(holder, token, now + ttl)) && row == Acquired(old(row), holder, now, ttl)
      ensures acquired ==> token == if old(row).None? then 1 else old(row).value.token + 1
      ensures !acquired ==> row == old(row)
    {
      if row.None? {
        row := Some(LeaseRow(holder, 1, now + ttl));
        return 1, true;
      }
      if row.value.expires <= now {
        token := row.value.token + 1;
        row := Some(LeaseRow(holder, token, now + ttl));
        return token, true;
      }
      return 0, false;
    }

    /** Matches on the holder alone: an expired but untaken lease still renews. */
    method Renew(holder: string, now: int, ttl: nat) returns (renewed: bool)
      modifies this
      ensures renewed <==> old(row).Some? && old(row).value.holder == holder
      ensures renewed ==> row == Some(LeaseRow(holder, old(row).value.token, now + ttl))
      ensures !renewed ==> row == old(row)
      ensures row == Renewed(old(row), holder, now, ttl)
    {
      if row.Some? && row.value.holder == holder {
        row := Some(row.value.(expires := now + ttl));
        return true;
      }
      return false;
    }

    /** Expires the lease in place; the row, and so its token, stays. */
    method Release(holder: string, now: int)
      modifies this
      ensures row == if old(row).Some? && old(row).value.holder == holder
                     then Some(LeaseRow(holder, old(row).value.token, now)) else old(row)
      ensures row == Released(old(row), holder, now)
    {
      if row.Some? && row.value.holder == holder {
        row := Some(row.value.(expires := now));
      }
    }
  }
}

/** Lease, fencing and transactions, as interleaved steps of many processes
    whose clocks may say anything. One SQL statement is one step; a share or
    exclusive lock on the lease row blocks updates of the row until its
    transaction ends. */
module LeaseRuns {
  import opened Text
  import opened Leases

  /** A data transaction of inFencedTx. */
  datatype Phase = Begun | Checked | Ready
  datatype Transaction = Transaction(token: nat, phase: Phase)

  /** A status write: the token it carries and whether it locked the lease row. */
  datatype Saver = Saver(token: nat, locked: bool)

  datatype State = State(
    row: Option<LeaseRow>,
    claims: map<string, nat>,
    transactions: map<nat, Transaction>,
    savers: map<nat, Saver>,
    issued: seq<nat>,
    commits: seq<nat>,
    statuses: seq<nat>)

  const INITIAL := State(None, map[], map[], map[], [], [], [])

  /** A process is named by its holder identity, unique to it. An Acquire whose
      answer is lost leaves the row taken but no claim. */
  datatype Step =
    | Acquire(process: string, now: int, ttl: nat, answered: bool)
    | Renew(process: string, now: int, ttl: nat)
    | Release(process: string, now: int)
    | Crash(process: string)
    | Begin(transaction: nat, token: nat)
    | PreCheck(transaction: nat)
    | ShareCheck(transaction: nat)
    | Commit(transaction: nat)
    | Abort(transaction: nat)
    | SaveCheck(saver: nat, token: nat)
    | SaveCommit(saver: nat)
    | SaveAbort(saver: nat)

  function Token(s: State): nat {
    if s.row.None? then 0 else s.row.value.token
  }

  /** FOR SHARE found the transaction's own token and is held to commit. */
  predicate Sharing(t: Transaction) {
    t.token > 0 && t.phase == Ready
  }

  predicate NoShareLocks(s: State) {
    forall x :: x in s.transactions ==> !Sharing(s.transactions[x])
  }

  predicate NoExclusiveLocks(s: State) {
    forall y :: y in s.savers ==> !s.savers[y].locked
  }

  /** The lease row may be updated. */
  predicate RowFree(s: State) {
    NoShareLocks(s) && NoExclusiveLocks(s)
  }

  /** A token some process was handed. */
  predicate IssuedToken(s: State, token: nat) {
    1 <= token <= Token(s)
  }

  predicate Enabled(s: State, step: Step) {
    match step
    case Acquire(p, now, ttl, _) => p !in s.claims && (Acquired(s.row, p, now, ttl).Some? ==> RowFree(s))
    case Renew(p, _, _) => p in s.claims && (HeldBy(s.row, p) ==> RowFree(s))
    case Release(p, _) => p in s.claims && (HeldBy(s.row, p) ==> RowFree(s))
    case Crash(p) => p in s.claims
    case Begin(x, _) => x !in s.transactions
    case PreCheck(x) => x in s.transactions && s.transactions[x].phase == Begun
    case ShareCheck(x) =>
      x in s.transactions && s.transactions[x].phase == Checked && (s.transactions[x].token > 0 ==> NoExclusiveLocks(s))
    case Commit(x) => x in s.transactions && s.transactions[x].phase == Ready
    case Abort(x) => x in s.transactions
    case SaveCheck(y, w) =>
      y !in s.savers && (w == 0 || IssuedToken(s, w)) && (s.row.Some? ==> RowFree(s))
    case SaveCommit(y) => y in s.savers
    case SaveAbort(y) => y in s.savers
  }

  function Apply(s: State, step: Step): State
    requires Enabled(s, step)
  {
    match step
    case Acquire(p, now, ttl, answered) =>
      var row := Acquired(s.row, p, now, ttl);
      if row.None? then s
      else s.(row := row, issued := s.issued + [row.value.token],
              claims := if answered then s.claims[p := row.value.token] else s.claims)
    case Renew(p, now, ttl) =>
      s.(row := Renewed(s.row, p, now, ttl))
    case Release(p, now) =>
      s.(row := Released(s.row, p, now), claims := s.claims - {p})
    case Crash(p) => s.(claims := s.claims - {p})
    case Begin(x, token) => s.(transactions := s.transactions[x := Transaction(token, Begun)])
    case PreCheck(x) => Fenced(s, x, Checked)
    case ShareCheck(x) => Fenced(s, x, Ready)
    case Commit(x) =>
      s.(commits := s.commits + [s.transactions[x].token], transactions := s.transactions - {x})
    case Abort(x) => s.(transactions := s.transactions - {x})
    case SaveCheck(y, w) =>
      if s.row.None? then s.(savers := s.savers[y := Saver(w, false)])
      else if w > 0 && w < Token(s) then s
      else s.(savers := s.savers[y := Saver(w, true)])
    case SaveCommit(y) =>
      s.(statuses := s.statuses + [s.savers[y].token], savers := s.savers - {y})
    case SaveAbort(y) => s.(savers := s.savers - {y})
  }

  /** One of the two token checks: the transaction goes on, or is rolled back
      as fenced out. */
  function Fenced(s: State, x: nat, phase: Phase): State
    requires x in s.transactions
  {
    var t := s.transactions[x];
    if t.token > 0 && (s.row.None? || s.row.value.token != t.token)
    then s.(transactions := s.transactions - {x})
    else s.(transactions := s.transactions[x := t.(phase := phase)])
  }

  // ---------------------------------------------------------------- invariant

  /** Positive tokens appear in non-decreasing order and none exceeds the bound. */
  predicate Ordered(tokens: seq<nat>, bound: nat) {
    && (forall i :: 0 <= i < |tokens| ==> tokens[i] <= bound)
    && (forall i, j :: 0 <= i < j < |tokens| && tokens[i] > 0 && tokens[j] > 0 ==> tokens[i] <= tokens[j])
  }

  predicate Invariant(s: State) {
    && Token(s) == |s.issued| && (s.row.Some? ==> Token(s) > 0)
    && (forall i :: 0 <= i < |s.issued| ==> s.issued[i] == i + 1)
    && (forall p :: p in s.claims ==> IssuedToken(s, s.claims[p]) && (HeldBy(s.row, p) ==> s.claims[p] == Token(s)))
    && (forall x :: x in s.transactions && Sharing(s.transactions[x]) ==> s.transactions[x].token == Token(s))
    && (forall y :: y in s.savers && s.savers[y].token > 0 ==> s.savers[y].locked && s.savers[y].token == Token(s))
    && Ordered(s.commits, Token(s)) && Ordered(s.statuses, Token(s))
  }

  lemma OrderedSnoc(tokens: seq<nat>, token: nat, bound: nat)
    requires Ordered(tokens, bound) && (token == 0 || token == bound)
    ensures Ordered(tokens + [token], bound)
  {
  }

  lemma RowStepKeepsInvariant(s: State, step: Step)
    requires Invariant(s) && Enabled(s, step)
    requires step.Acquire? || step.Renew? || step.Release? || step.Crash?
    ensures Invariant(Apply(s, step)) && Token(s) <= Token(Apply(s, step))
  {
  }

  lemma TransactionStepKeepsInvariant(s: State, step: Step)
    requires Invariant(s) && Enabled(s, step)
    requires step.Begin? || step.PreCheck? || step.ShareCheck? || step.Commit? || step.Abort?
    ensures Invariant(Apply(s, step)) && Token(s) == Token(Apply(s, step))
  {
    if step.Commit? {
      OrderedSnoc(s.commits, s.transactions[step.transaction].token, Token(s));
    }
  }

  lemma SaveStepKeepsInvariant(s: State, step: Step)
    requires Invariant(s) && Enabled(s, step)
    requires step.SaveCheck? || step.SaveCommit? || step.SaveAbort?
    ensures Invariant(Apply(s, step)) && Token(s) == Token(Apply(s, step))
  {
    if step.SaveCommit? {
      OrderedSnoc(s.statuses, s.savers[step.saver].token, Token(s));
    }
  }

  lemma StepKeepsInvariant(s: State, step: Step)
    requires Invariant(s) && Enabled(s, step)
    ensures Invariant(Apply(s, step)) && Token(s) <= Token(Apply(s, step))
  {
    if step.Acquire? || step.Renew? || step.Release? || step.Crash? {
      RowStepKeepsInvariant(s, step);
    } else if step.SaveCheck? || step.SaveCommit? || step.SaveAbort? {
      SaveStepKeepsInvariant(s, step);
    } else {
      TransactionStepKeepsInvariant(s, step);
    }
  }

  // ---------------------------------------------------------------- runs

  ghost predicate Run(steps: seq<Step>, states: seq<State>) {
    && |states| == |steps| + 1 && states[0] == INITIAL
    && forall i :: 0 <= i < |steps| ==> Takes(steps, states, i)
  }

  ghost predicate Takes(steps: seq<Step>, states: seq<State>, i: nat)
    requires i < |steps| && |states| == |steps| + 1
  {
    Enabled(states[i], steps[i]) && states[i + 1] == Apply(states[i], steps[i])
  }

  lemma {:induction false} RunKeepsInvariant(steps: seq<Step>, states: seq<State>, i: nat)
    requires Run(steps, states) && i < |states|
    ensures Invariant(states[i])
  {
    if i > 0 {
      RunKeepsInvariant(steps, states, i - 1);
      assert Takes(steps, states, i - 1);
      StepKeepsInvariant(states[i - 1], steps[i - 1]);
    }
  }

  lemma {:induction false} TokensNeverFall(steps: seq<Step>, states: seq<State>, i: nat, j: nat)
    requires Run(steps, states) && i <= j < |states|
    ensures Token(states[i]) <= Token(states[j])
    decreases j
  {
    if i < j {
      TokensNeverFall(steps, states, i, j - 1);
      RunKeepsInvariant(steps, states, j - 1);
      assert Takes(steps, states, j - 1);
      StepKeepsInvariant(states[j - 1], steps[j - 1]);
    }
  }

  /** Every acquisition of a run issues a token of its own, one above the last. */
  lemma TokensStrictlyIncrease(steps: seq<Step>, states: seq<State>, i: nat)
    requires Run(steps, states) && i < |steps|
    ensures var issued := states[i].issued;
            states[i + 1].issued == issued || states[i + 1].issued == issued + [|issued| + 1]
    ensures Increasing(states[i + 1].issued)
  {
    RunKeepsInvariant(steps, states, i);
    RunKeepsInvariant(steps, states, i + 1);
    assert Takes(steps, states, i);
  }

  predicate Increasing(tokens: seq<nat>) {
    forall j, k :: 0 <= j < k < |tokens| ==> tokens[j] < tokens[k]
  }

  /** A fenced write commits only while the lease token is its own, whatever the
      clocks say. */
  lemma FencedCommit(steps: seq<Step>, states: seq<State>, i: nat)
    requires Run(steps, states) && i < |steps| && steps[i].Commit?
    ensures steps[i].transaction in states[i].transactions
    ensures var token := states[i].transactions[steps[i].transaction].token;
            states[i + 1].commits == states[i].commits + [token] &&
            (token > 0 ==> states[i].row.Some? && states[i].row.value.token == token)
  {
    RunKeepsInvariant(steps, states, i);
    assert Takes(steps, states, i);
  }

  /** Nothing older than an issued token commits after it. */
  lemma NothingOlderCommits(steps: seq<Step>, states: seq<State>, issuedBy: nat, i: nat)
    requires Run(steps, states) && issuedBy <= i < |steps| && steps[i].Commit?
    ensures steps[i].transaction in states[i].transactions
    ensures var token := states[i].transactions[steps[i].transaction].token;
            token == 0 || forall t :: t in states[issuedBy].issued ==> t <= token
  {
    FencedCommit(steps, states, i);
    TokensNeverFall(steps, states, issuedBy, i);
    RunKeepsInvariant(steps, states, issuedBy);
  }

  /** Tokens of fenced data writes, and of fenced status writes, never decrease
      in commit order. */
  lemma CommittedTokensOrdered(steps: seq<Step>, states: seq<State>, i: nat)
    requires Run(steps, states) && i < |states|
    ensures Ordered(states[i].commits, Token(states[i])) && Ordered(states[i].statuses, Token(states[i]))
  {
    RunKeepsInvariant(steps, states, i);
  }

  /** Renew and Release match on the holder alone, yet one that takes effect
      finds its own claim's token still in the row: no takeover came between. */
  lemma HolderMatchIsTokenMatch(steps: seq<Step>, states: seq<State>, i: nat)
    requires Run(steps, states) && i < |steps| && (steps[i].Renew? || steps[i].Release?)
    requires HeldBy(states[i].row, steps[i].process)
    ensures steps[i].process in states[i].claims
    ensures states[i].claims[steps[i].process] == Token(states[i]) == Token(states[i + 1])
  {
    RunKeepsInvariant(steps, states, i);
    assert Takes(steps, states, i);
  }

  // ---------------------------------------------------------------- one clock

  /** All steps read one clock that never goes back. */
  predicate TellsTime(step: Step) {
    step.Acquire? || step.Renew? || step.Release?
  }

  predicate CommonClock(steps: seq<Step>) {
    forall i, j :: 0 <= i < j < |steps| && TellsTime(steps[i]) && TellsTime(steps[j]) ==> steps[i].now <= steps[j].now
  }

  /** Each process always asks for the same time to live. */
  predicate FixedTtl(steps: seq<Step>, ttl: map<string, nat>) {
    forall i :: 0 <= i < |steps| && (steps[i].Acquire? || steps[i].Renew?) ==>
      steps[i].process in ttl && steps[i].ttl == ttl[steps[i].process]
  }

  /** The row's expiry lies within its holder's time to live of every later
      clock reading. */
  lemma {:induction false} ExpiryWithinTtl(steps: seq<Step>, states: seq<State>, ttl: map<string, nat>, i: nat, j: nat)
    requires Run(steps, states) && CommonClock(steps) && FixedTtl(steps, ttl)
    requires i <= j < |steps| && TellsTime(steps[j]) && states[i].row.Some?
    ensures states[i].row.value.holder in ttl
    ensures states[i].row.value.expires <= steps[j].now + ttl[states[i].row.value.holder]
    decreases i
  {
    assert i > 0;
    assert Takes(steps, states, i - 1);
    var step := steps[i - 1];
    if TellsTime(step) {
      assert step.now <= steps[j].now;
    }
    if states[i].row != states[i - 1].row && (step.Acquire? || step.Renew?) {
      assert steps[i - 1].process in ttl;
    } else {
      ExpiryWithinTtl(steps, states, ttl, i - 1, j);
    }
  }

  /** With one clock, a lease that is not released stays with its holder until
      it expires: no other Acquire succeeds before. */
  lemma {:induction false} ExclusiveUntilExpiry(steps: seq<Step>, states: seq<State>, ttl: map<string, nat>, i: nat, j: nat)
    requires Run(steps, states) && CommonClock(steps) && FixedTtl(steps, ttl)
    requires i <= j < |states| && states[i].row.Some?
    requires forall k :: i <= k < j && TellsTime(steps[k]) ==> steps[k].now < states[i].row.value.expires
    requires forall k :: i <= k < j && steps[k].Release? ==> steps[k].process != states[i].row.value.holder
    ensures states[j].row.Some?
    ensures states[j].row.value.holder == states[i].row.value.holder && Token(states[j]) == Token(states[i])
    ensures states[j].row.value.expires >= states[i].row.value.expires
    decreases j
  {
    if i < j {
      ExclusiveUntilExpiry(steps, states, ttl, i, j - 1);
      assert Takes(steps, states, j - 1);
      if steps[j - 1].Renew? && HeldBy(states[j - 1].row, steps[j - 1].process) {
        ExpiryWithinTtl(steps, states, ttl, j - 1, j - 1);
      }
    }
  }

  /** Step i leaves the lease with a process until a moment: an Acquire or a Renew
      that took effect. */
  predicate Extends(steps: seq<Step>, states: seq<State>, i: nat)
    requires i < |steps| < |states|
  {
    && (steps[i].Acquire? || steps[i].Renew?)
    && states[i + 1].row == Some(LeaseRow(steps[i].process, Token(states[i + 1]), steps[i].now + steps[i].ttl))
  }

  /** A renewal takes effect exactly when the row is the process's, and then the
      lease runs from its clock, under the same token; a release ends it there;
      otherwise neither touches the row. */
  lemma RenewAndReleaseExact(steps: seq<Step>, states: seq<State>, i: nat)
    requires Run(steps, states) && i < |steps| && (steps[i].Renew? || steps[i].Release?)
    ensures var held := states[i].row.Some? && states[i].row.value.holder == steps[i].process;
            var end := if steps[i].Renew? then steps[i].now + steps[i].ttl else steps[i].now;
            states[i + 1].row
              == if held then Some(LeaseRow(steps[i].process, states[i].row.value.token, end)) else states[i].row
  {
    assert Takes(steps, states, i);
  }

  /** An acquisition takes effect exactly without a row or on an expired one. */
  lemma AcquireExact(steps: seq<Step>, states: seq<State>, i: nat)
    requires Run(steps, states) && i < |steps| && steps[i].Acquire?
    ensures var free := states[i].row.None? || states[i].row.value.expires <= steps[i].now;
            && (free ==> states[i + 1].row == Some(LeaseRow(steps[i].process, Token(states[i]) + 1, steps[i].now + steps[i].ttl)))
            && (free && steps[i].answered ==>
                  steps[i].process in states[i + 1].claims && states[i + 1].claims[steps[i].process] == Token(states[i]) + 1)
            && (!free ==> states[i + 1] == states[i])
  {
    assert Takes(steps, states, i);
  }

  predicate HandlesOwn(step: Step, process: string) {
    (step.Renew? || step.Release?) && step.process == process
  }

  lemma {:induction false} RowStays(steps: seq<Step>, states: seq<State>, i: nat, j: nat)
    requires Run(steps, states) && CommonClock(steps) && i < j < |steps| && Extends(steps, states, i)
    requires TellsTime(steps[j]) && steps[j].now < steps[i].now + steps[i].ttl
    requires forall k :: i < k < j ==> !HandlesOwn(steps[k], steps[i].process)
    ensures forall k :: i < k <= j ==> states[k].row == states[i + 1].row
  {
    RowStaysTo(steps, states, i, j, j);
  }

  lemma {:induction false} RowStaysTo(steps: seq<Step>, states: seq<State>, i: nat, j: nat, n: nat)
    requires Run(steps, states) && CommonClock(steps) && i < n <= j < |steps| && Extends(steps, states, i)
    requires TellsTime(steps[j]) && steps[j].now < steps[i].now + steps[i].ttl
    requires forall k :: i < k < j ==> !HandlesOwn(steps[k], steps[i].process)
    ensures forall k :: i < k <= n ==> states[k].row == states[i + 1].row
    decreases n
  {
    if i + 1 < n {
      RowStaysTo(steps, states, i, j, n - 1);
      assert Takes(steps, states, n - 1);
      assert !HandlesOwn(steps[n - 1], steps[i].process);
      if TellsTime(steps[n - 1]) {
        assert steps[n - 1].now <= steps[j].now;
      }
    }
  }

  /** With one clock: until the time to live of the holder's last effective
      Acquire or Renew has passed, and unless it releases, every Acquire fails. */
  lemma NoTakeoverBeforeExpiry(steps: seq<Step>, states: seq<State>, i: nat, j: nat)
    requires Run(steps, states) && CommonClock(steps) && i < j < |steps| && Extends(steps, states, i)
    requires forall k :: i < k < j ==> !HandlesOwn(steps[k], steps[i].process)
    requires steps[j].Acquire? && steps[j].now < steps[i].now + steps[i].ttl
    ensures states[j + 1] == states[j] && states[j].row == states[i + 1].row
  {
    RowStays(steps, states, i, j);
    AcquireExact(steps, states, j);
  }

  lemma {:induction false} ReleasedStays(steps: seq<Step>, states: seq<State>, i: nat, j: nat)
    requires Run(steps, states) && i < j <= |steps| && steps[i].Release? && HeldBy(states[i].row, steps[i].process)
    requires forall k :: i < k < j ==> !steps[k].Acquire?
    ensures steps[i].process !in states[j].claims && HeldBy(states[j].row, steps[i].process)
    ensures states[j].row == states[i + 1].row
    decreases j
  {
    assert Takes(steps, states, j - 1);
    if i + 1 < j {
      ReleasedStays(steps, states, i, j - 1);
      assert !steps[j - 1].Acquire?;
    }
  }

  /** With one clock, the first Acquire after an effective Release succeeds,
      whoever asks. */
  lemma ReleasedIsFree(steps: seq<Step>, states: seq<State>, i: nat, j: nat)
    requires Run(steps, states) && CommonClock(steps) && i < j < |steps|
    requires steps[i].Release? && HeldBy(states[i].row, steps[i].process)
    requires steps[j].Acquire? && forall k :: i < k < j ==> !steps[k].Acquire?
    ensures states[j + 1].row == Some(LeaseRow(steps[j].process, Token(states[i]) + 1, steps[j].now + steps[j].ttl))
  {
    ReleasedStays(steps, states, i, j);
    RenewAndReleaseExact(steps, states, i);
    AcquireExact(steps, states, j);
    assert steps[i].now <= steps[j].now;
  }

  /** A token check lets a transaction through exactly when it carries no token or
      the row's, and one that is through both checks commits its token. */
  lemma ChecksExact(steps: seq<Step>, states: seq<State>, i: nat)
    requires Run(steps, states) && i < |steps| && (steps[i].PreCheck? || steps[i].ShareCheck?)
    ensures var x := steps[i].transaction;
            && x in states[i].transactions
            && (x in states[i + 1].transactions <==>
                  states[i].transactions[x].token == 0 || states[i].transactions[x].token == Token(states[i]))
            && (x in states[i + 1].transactions ==>
                  states[i + 1].transactions[x]
                    == Transaction(states[i].transactions[x].token, if steps[i].PreCheck? then Checked else Ready))
  {
    assert Takes(steps, states, i);
  }

  /** A status is saved exactly when it carries no token or one at least the
      row's; it locks the row, if there is one, until it commits. */
  lemma SavesExact(steps: seq<Step>, states: seq<State>, i: nat)
    requires Run(steps, states) && i < |steps| && (steps[i].SaveCheck? || steps[i].SaveCommit?)
    ensures steps[i].SaveCheck? ==>
              (steps[i].saver in states[i + 1].savers <==>
                 states[i].row.None? || steps[i].token == 0 || steps[i].token >= states[i].row.value.token) &&
              (steps[i].saver in states[i + 1].savers ==>
                 states[i + 1].savers[steps[i].saver] == Saver(steps[i].token, states[i].row.Some?))
    ensures steps[i].SaveCommit? ==>
              steps[i].saver in states[i].savers &&
              states[i + 1].statuses == states[i].statuses + [states[i].savers[steps[i].saver].token]
  {
    assert Takes(steps, states, i);
  }

  /** The steps that only come and go: a transaction begins unchecked with its
      token, one that is rolled back, a save that is, and a process that crashes
      leave nothing behind, and the row stays. */
  lemma ComingAndGoing(steps: seq<Step>, states: seq<State>, i: nat)
    requires Run(steps, states) && i < |steps|
    ensures match steps[i]
            case Begin(x, token) =>
              states[i + 1] == states[i].(transactions := states[i].transactions[x := Transaction(token, Begun)])
            case Abort(x) => states[i + 1] == states[i].(transactions := states[i].transactions - {x})
            case SaveAbort(y) => states[i + 1] == states[i].(savers := states[i].savers - {y})
            case Crash(p) => states[i + 1] == states[i].(claims := states[i].claims - {p})
            case _ => true
  {
    assert Takes(steps, states, i);
  }

  // ---------------------------------------------------------------- progress

  lemma OneMore(steps: seq<Step>, states: seq<State>, step: Step) returns (more: seq<Step>, after: seq<State>)
    requires Run(steps, states) && Enabled(states[|steps|], step)
    ensures Run(more, after) && more == steps + [step] && |after| == |more| + 1
    ensures after[|more|] == Apply(states[|steps|], step)
  {
    more, after := steps + [step], states + [Apply(states[|steps|], step)];
    forall i | 0 <= i < |more| ensures Takes(more, after, i) {
      assert i < |steps| ==> Takes(steps, states, i);
    }
  }

  /** Every write under way can end, and then no lock is left on the row. */
  lemma {:induction false} WritesCanEnd(steps: seq<Step>, states: seq<State>, transactions: set<nat>, savers: set<nat>)
    returns (more: seq<Step>, after: seq<State>)
    requires Run(steps, states)
    requires transactions == states[|steps|].transactions.Keys && savers == states[|steps|].savers.Keys
    ensures Run(more, after) && steps <= more && |after| == |more| + 1
    ensures after[|more|] == states[|steps|].(transactions := map[], savers := map[])
    decreases transactions, savers
  {
    if transactions != {} {
      var x :| x in transactions;
      more, after := OneMore(steps, states, Abort(x));
      more, after := WritesCanEnd(more, after, transactions - {x}, savers);
    } else if savers != {} {
      var y :| y in savers;
      more, after := OneMore(steps, states, SaveAbort(y));
      more, after := WritesCanEnd(more, after, transactions, savers - {y});
    } else {
      more, after := steps, states;
      assert states[|steps|].transactions == map[] && states[|steps|].savers == map[];
    }
  }

  /** A write with the lease's token can be committed, and a status saved with it. */
  lemma TokenCanBeUsed(steps: seq<Step>, states: seq<State>) returns (more: seq<Step>, after: seq<State>)
    requires Run(steps, states) && states[|steps|].transactions == map[] && states[|steps|].savers == map[]
    requires states[|steps|].row.Some?
    ensures Run(more, after) && steps <= more && |after| == |more| + 1
    ensures var s, token := states[|steps|], Token(states[|steps|]);
            after[|more|] == s.(commits := s.commits + [token], statuses := s.statuses + [token])
  {
    var s, token := states[|steps|], Token(states[|steps|]);
    more, after := OneMore(steps, states, Begin(0, token));
    more, after := OneMore(more, after, PreCheck(0));
    more, after := OneMore(more, after, ShareCheck(0));
    more, after := OneMore(more, after, Commit(0));
    assert after[|more|].transactions == map[];
    more, after := OneMore(more, after, SaveCheck(0, token));
    more, after := OneMore(more, after, SaveCommit(0));
    assert after[|more|].savers == map[];
  }

  /** A lease that is free or expired can always be had: once the writes under way
      have ended, a process that asks gets it, with the next token, and with it can
      commit a write and save a status. */
  lemma FreeLeaseCanBeUsed(steps: seq<Step>, states: seq<State>, process: string, now: int, ttl: nat)
    returns (more: seq<Step>, after: seq<State>)
    requires Run(steps, states) && process !in states[|steps|].claims
    requires states[|steps|].row.None? || states[|steps|].row.value.expires <= now
    ensures Run(more, after) && steps <= more && |after| == |more| + 1
    ensures var s, token := after[|more|], Token(states[|steps|]) + 1;
            && s.row == Some(LeaseRow(process, token, now + ttl))
            && process in s.claims && s.claims[process] == token
            && s.commits == states[|steps|].commits + [token] && s.statuses == states[|steps|].statuses + [token]
  {
    var s := states[|steps|];
    more, after := WritesCanEnd(steps, states, s.transactions.Keys, s.savers.Keys);
    more, after := OneMore(more, after, Acquire(process, now, ttl, true));
    more, after := TokenCanBeUsed(more, after);
  }

  /** And its holder can always renew it, and then release it. */
  lemma HolderCanRenewAndRelease(steps: seq<Step>, states: seq<State>, process: string, now: int, ttl: nat)
    returns (more: seq<Step>, after: seq<State>)
    requires Run(steps, states) && process in states[|steps|].claims && HeldBy(states[|steps|].row, process)
    ensures Run(more, after) && steps <= more && |after| == |more| + 1
    ensures after[|more|].row == Some(LeaseRow(process, Token(states[|steps|]), now)) && process !in after[|more|].claims
  {
    var s := states[|steps|];
    more, after := WritesCanEnd(steps, states, s.transactions.Keys, s.savers.Keys);
    more, after := OneMore(more, after, Renew(process, now, ttl));
    more, after := OneMore(more, after, Release(process, now));
  }
}
