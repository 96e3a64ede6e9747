/** A region's sync runs (internal/usecase/master_data_sync_usecase.go,
    regionSyncTask): running status, load, store, prune, version payload, success
    status, with the unchanged-commit, unchanged-manifest and rate-limit
    shortcuts. Runs follow one another; a run may fail or be cut off anywhere. */
module RegionSyncs {
  import opened Text
  import opened EntityContents

  type Data = map<string, Contents>

  /** A payload's files by entity name: records, or anything else. */
  type Payload = map<string, Option<Contents>>

  /** The entities a payload's record files hold: what loading it means. */
  function Entities(payload: Payload): Data {
    map name | name in payload && payload[name].Some? :: payload[name].value
  }

  // ---------------------------------------------------------------- one store

  /** Storing every record file of a payload. */
  function Overwritten(data: Data, payload: Payload): Data {
    data + Entities(payload)
  }

  /** Pruning keeps what the payload's files name; an empty payload prunes nothing. */
  function Pruned(data: Data, payload: Payload): Data {
    if payload == map[] then data else map name | name in data && name in payload :: data[name]
  }

  /** Storing and pruning leave exactly the payload's entities if and only if
      the payload has files or nothing was stored, and no stored entity has the
      name of a file that holds no records: such an entity is neither rewritten
      nor pruned. */
  lemma FullStoreExact(data: Data, payload: Payload)
    ensures Pruned(Overwritten(data, payload), payload) == Entities(payload) <==>
            (payload == map[] ==> data == map[]) &&
            (forall name :: name in data && name in payload ==> payload[name].Some?)
  {
    var after, entities := Pruned(Overwritten(data, payload), payload), Entities(payload);
    if payload == map[] {
      assert entities == map[];
      assert Overwritten(data, payload) == data;
    } else {
      forall name | name in data && name in payload && payload[name].None? ensures after != entities {
        assert name in after && name !in entities;
      }
      if forall name :: name in data && name in payload ==> payload[name].Some? {
        assert after.Keys == entities.Keys;
      }
    }
  }

  // ---------------------------------------------------------------- runs

  datatype Outcome = Pending | Running | Failed | Success

  /** A status and its source commit; None is the empty commit of a run that
      could not resolve one. */
  datatype Status = Status(outcome: Outcome, commit: Option<nat>)

  /** A source's commits in order: what each loads and its versions manifest. */
  datatype World = World(payload: nat -> Payload, manifest: nat -> Option<string>) {
    /** Equal manifests mean equal data, and the source never returns to a
        manifest it has left. */
    ghost predicate ManifestsTell() {
      forall i, k, j {:trigger manifest(i), manifest(k), manifest(j)} ::
        i <= k <= j && manifest(i).Some? && manifest(i) == manifest(j) ==>
          manifest(k) == manifest(i) && payload(k) == payload(i)
    }

    /** Every payload has files, and a file that holds no records in one commit
        holds none in any. */
    ghost predicate Shaped() {
      && (forall c :: payload(c) != map[])
      && (forall c, name :: name in payload(c) && payload(c)[name].None? ==> !HoldsRecords(name))
    }

    ghost predicate HoldsRecords(name: string) {
      exists c :: name in payload(c) && payload(c)[name].Some?
    }

    function Load(c: nat): Data {
      Entities(payload(c))
    }
  }

  datatype Phase =
    | Begun
    | Resolved
    | Loading
    | Storing(commit: nat, done: set<string>)
    | Stored(commit: nat)
    | PrunedTo(commit: nat)
    | VersionStored(commit: nat)

  /** A run: what it read at its start (the commit of the latest success if there
      is one, and whether the latest status is it), the commit it resolved, and
      whether it has saved a pending or running status. */
  datatype Task = Task(force: bool, ready: bool, previous: Option<Option<nat>>, wasSuccess: bool,
                       resolved: Option<nat>, marked: bool, phase: Phase)

  /** The stored region: entities, version payload, and for the argument the
      last commit written from and the commit the version payload is of. */
  datatype Store = Store(data: Data, version: Option<string>, written: nat, versionOf: nat)

  datatype Statuses = Statuses(latest: Option<Status>, success: Option<Option<nat>>)

  datatype State = State(head: nat, store: Store, statuses: Statuses, task: Option<Task>)

  const INITIAL := State(0, Store(map[], None, 0, 0), Statuses(None, None), None)

  datatype Step =
    | SourceAdvances
    | Begin(force: bool, ready: bool)
    | Resolve(ok: bool)
    | SkipUnchangedCommit
    | SkipUnchangedManifest
    | MarkRunning
    | LoadSucceeds
    | RateLimited
    | StoreFile(name: string)
    | StoreSucceeds
    | Prune
    | StoreVersion
    | Finish
    | Fail
    | CutOff

  predicate InPhase(s: State, phase: Phase) {
    s.task.Some? && s.task.value.phase == phase
  }

  function RecordFiles(payload: Payload): set<string> {
    set name | name in payload && payload[name].Some?
  }

  predicate Enabled(w: World, s: State, step: Step) {
    match step
    case SourceAdvances => true
    case Begin(_, _) => s.task.None?
    case Resolve(_) => InPhase(s, Begun)
    case SkipUnchangedCommit =>
      InPhase(s, Resolved) && !s.task.value.force && s.task.value.resolved.Some? &&
      s.task.value.previous == Some(s.task.value.resolved) && s.store.data != map[] && s.store.version.Some?
    case SkipUnchangedManifest =>
      InPhase(s, Resolved) && !s.task.value.force && s.task.value.ready && s.task.value.resolved.Some? &&
      s.task.value.previous.Some? && s.task.value.previous.value.Some? &&
      s.task.value.previous.value != s.task.value.resolved &&
      s.store.version.Some? && s.store.version == w.manifest(s.task.value.resolved.value)
    case MarkRunning => InPhase(s, Resolved)
    case LoadSucceeds => InPhase(s, Loading)
    case RateLimited =>
      InPhase(s, Loading) && s.task.value.ready && s.task.value.wasSuccess && s.task.value.previous.Some?
    case StoreFile(name) =>
      s.task.Some? && s.task.value.phase.Storing? && name in RecordFiles(w.payload(s.task.value.phase.commit))
    case StoreSucceeds =>
      s.task.Some? && s.task.value.phase.Storing? &&
      RecordFiles(w.payload(s.task.value.phase.commit)) <= s.task.value.phase.done
    case Prune => s.task.Some? && s.task.value.phase.Stored?
    case StoreVersion => s.task.Some? && s.task.value.phase.PrunedTo?
    case Finish => s.task.Some? && s.task.value.phase.VersionStored?
    case Fail => s.task.Some? && !s.task.value.phase.Begun? && !s.task.value.phase.Resolved?
    case CutOff => s.task.Some?
  }

  /** saveStatus. */
  function Saved(statuses: Statuses, status: Status): Statuses {
    Statuses(Some(status), if status.outcome == Success then Some(status.commit) else statuses.success)
  }

  /** The run goes on in another phase. */
  function On(s: State, phase: Phase): State
    requires s.task.Some?
  {
    s.(task := Some(s.task.value.(phase := phase)))
  }

  /** The run ends with a status. */
  function Ended(s: State, status: Status): State {
    s.(statuses := Saved(s.statuses, status), task := None)
  }

  function Apply(w: World, s: State, step: Step): State
    requires Enabled(w, s, step)
  {
    match step
    case SourceAdvances => s.(head := s.head + 1)
    case Begin(force, ready) => Started(s, force, ready)
    case Resolve(ok) =>
      s.(task := Some(s.task.value.(resolved := if ok then Some(s.head) else None, phase := Resolved)))
    case SkipUnchangedCommit => Ended(s, Status(Success, s.task.value.resolved))
    case SkipUnchangedManifest => Ended(s, Status(Success, s.task.value.resolved))
    case MarkRunning =>
      s.(statuses := Saved(s.statuses, Status(Running, s.task.value.resolved)),
         task := Some(s.task.value.(marked := true, phase := Loading)))
    case LoadSucceeds => On(s, Storing(if s.task.value.resolved.Some? then s.task.value.resolved.value else s.head, {}))
    case RateLimited => Ended(s, Status(Success, s.task.value.previous.value))
    case StoreFile(name) => FileStored(w, s, name)
    case StoreSucceeds => On(s, Stored(s.task.value.phase.commit))
    case Prune =>
      On(s, PrunedTo(s.task.value.phase.commit)).(
        store := s.store.(data := Pruned(s.store.data, w.payload(s.task.value.phase.commit)),
                          written := s.task.value.phase.commit))
    case StoreVersion => VersionKept(w, s)
    case Finish => Ended(s, Status(Success, s.task.value.resolved))
    case Fail => Ended(s, Status(Failed, s.task.value.resolved))
    case CutOff => s.(task := None)
  }

  /** The statuses are read, and a cold region is marked pending. */
  function Started(s: State, force: bool, ready: bool): State {
    var latest := s.statuses.latest;
    var task := Task(force, ready, s.statuses.success, latest.Some? && latest.value.outcome == Success, None, !ready, Begun);
    var commit := if s.statuses.success.Some? then s.statuses.success.value
                  else if latest.Some? then latest.value.commit else None;
    s.(task := Some(task), statuses := if ready then s.statuses else Saved(s.statuses, Status(Pending, commit)))
  }

  function FileStored(w: World, s: State, name: string): State
    requires s.task.Some? && s.task.value.phase.Storing? && name in RecordFiles(w.payload(s.task.value.phase.commit))
  {
    var commit, done := s.task.value.phase.commit, s.task.value.phase.done;
    On(s, Storing(commit, done + {name})).(
      store := s.store.(data := s.store.data[name := w.payload(commit)[name].value], written := commit))
  }

  /** The version payload found among the files, if any, is stored. */
  function VersionKept(w: World, s: State): State
    requires s.task.Some? && s.task.value.phase.PrunedTo?
  {
    var commit := s.task.value.phase.commit;
    var next := On(s, VersionStored(commit));
    if w.manifest(commit).None? then next
    else next.(store := s.store.(version := w.manifest(commit), versionOf := commit))
  }

  // ---------------------------------------------------------------- invariant

  predicate Holds(w: World, s: State, commit: nat) {
    s.store.data == w.Load(commit)
  }

  /** The commit a run writes from, once loaded. */
  function WritesFrom(phase: Phase): Option<nat> {
    match phase
    case Storing(c, _) => Some(c)
    case Stored(c) => Some(c)
    case PrunedTo(c) => Some(c)
    case VersionStored(c) => Some(c)
    case _ => None
  }

  /** No commit runs ahead of the source, and a run never works on one older than
      the last written or the last success. */
  predicate InOrder(s: State) {
    && s.store.written <= s.head && s.store.versionOf <= s.store.written
    && (s.statuses.success.Some? && s.statuses.success.value.Some? ==> s.statuses.success.value.value <= s.head)
    && (s.task.Some? ==> TaskInOrder(s, s.task.value))
  }

  predicate TaskInOrder(s: State, task: Task) {
    && task.previous == s.statuses.success
    && (task.resolved.Some? ==> AtLeast(s, task.resolved.value))
    && (WritesFrom(task.phase).Some? ==>
          AtLeast(s, WritesFrom(task.phase).value) &&
          (task.resolved.Some? ==> task.resolved == WritesFrom(task.phase)))
  }

  predicate AtLeast(s: State, commit: nat) {
    && s.store.written <= commit <= s.head
    && (s.statuses.success.Some? && s.statuses.success.value.Some? ==> s.statuses.success.value.value <= commit)
  }

  ghost predicate StoredSoFar(w: World, s: State, commit: nat, done: set<string>) {
    forall name :: name in done && name in RecordFiles(w.payload(commit)) ==>
      name in s.store.data && s.store.data[name] == w.payload(commit)[name].value
  }

  /** All a commit's record files are stored; and they are all that is stored
      exactly when the last prune fitted. */
  ghost predicate Says(w: World, s: State, commit: nat, fit: bool) {
    StoredSoFar(w, s, commit, RecordFiles(w.payload(commit))) && (Holds(w, s, commit) <==> fit)
  }

  /** The last success still describes the data unless a later commit was written. */
  ghost predicate SuccessRight(w: World, s: State, fit: bool) {
    s.statuses.success.Some? && s.statuses.success.value.Some? && s.store.written <= s.statuses.success.value.value ==>
      Says(w, s, s.statuses.success.value.value, fit)
  }

  /** The stored version payload describes the data of every commit from the
      last written on that has the same manifest. */
  ghost predicate VersionRight(w: World, s: State, fit: bool) {
    s.store.version.Some? ==>
      && w.manifest(s.store.versionOf) == s.store.version
      && forall c :: s.store.written <= c && w.manifest(c) == s.store.version ==> Says(w, s, c, fit)
  }

  predicate LatestIsSuccess(s: State) {
    s.statuses.latest.Some? && s.statuses.latest.value.outcome == Success
  }

  /** What the latest status says. */
  ghost predicate LatestRight(w: World, s: State, fit: bool) {
    LatestIsSuccess(s) ==>
      && s.statuses.success == Some(s.statuses.latest.value.commit)
      && (s.statuses.latest.value.commit.Some? ==> Says(w, s, s.statuses.latest.value.commit.value, fit))
  }

  /** What a run relies on, phase by phase. */
  ghost predicate TaskRight(w: World, s: State, task: Task, fit: bool) {
    && (task.marked ==> !LatestIsSuccess(s))
    && (!task.marked ==> task.wasSuccess == LatestIsSuccess(s))
    && (task.phase != Begun && task.phase != Resolved ==> task.marked)
    && (WritesFrom(task.phase).None? && task.wasSuccess ==>
          task.previous.Some? && (task.previous.value.Some? ==> Says(w, s, task.previous.value.value, fit)))
    && (task.phase.Storing? ==> StoredSoFar(w, s, task.phase.commit, task.phase.done))
    && (task.phase.Stored? ==> StoredSoFar(w, s, task.phase.commit, RecordFiles(w.payload(task.phase.commit))))
    && (task.phase.PrunedTo? || task.phase.VersionStored? ==>
          Says(w, s, task.phase.commit, fit) && s.store.written == task.phase.commit)
  }

  /** What every step keeps, given whether the last prune fitted. */
  ghost predicate Invariant(w: World, s: State, fit: bool) {
    && InOrder(s) && SuccessRight(w, s, fit) && VersionRight(w, s, fit) && LatestRight(w, s, fit)
    && (s.task.Some? ==> TaskRight(w, s, s.task.value, fit))
  }

  // ---------------------------------------------------------------- writing steps

  /** Commits with the stored manifest, from the last written on, load the same. */
  lemma SameManifestSamePayload(w: World, s: State, d: nat, c: nat)
    requires w.ManifestsTell() && s.store.version.Some? && w.manifest(s.store.versionOf) == s.store.version
    requires s.store.versionOf <= s.store.written <= d <= c && w.manifest(c) == s.store.version
    ensures w.payload(d) == w.payload(c)
  {
    assert w.manifest(s.store.versionOf) == w.manifest(c);
    assert w.manifest(d) == w.manifest(c);
  }

  /** A write of commit d's payload, which is idle on data that has its files. */
  lemma WriteKeepsDescriptions(w: World, s: State, d: nat, after: State, fit: bool)
    requires w.ManifestsTell() && InOrder(s) && SuccessRight(w, s, fit) && VersionRight(w, s, fit) && AtLeast(s, d)
    requires after.head == s.head && after.statuses == s.statuses && after.store.written == d
    requires after.store.version == s.store.version && after.store.versionOf == s.store.versionOf
    requires StoredSoFar(w, s, d, RecordFiles(w.payload(d))) ==> after.store.data == s.store.data
    ensures SuccessRight(w, after, fit) && VersionRight(w, after, fit)
  {
    if s.store.version.Some? {
      forall c | d <= c && w.manifest(c) == s.store.version ensures Says(w, after, c, fit) {
        SameManifestSamePayload(w, s, d, c);
        assert Says(w, s, c, fit);
      }
    }
  }

  /** Once what is stored is described by commit d, it is by every later commit
      with the stored manifest. */
  lemma DescribedBy(w: World, s: State, d: nat, after: State, fit: bool)
    requires w.ManifestsTell() && InOrder(s) && AtLeast(s, d) && Says(w, after, d, fit)
    requires s.store.version.Some? ==> w.manifest(s.store.versionOf) == s.store.version
    requires after.statuses == s.statuses && after.store.written == d
    requires after.store.version == s.store.version && after.store.versionOf == s.store.versionOf
    ensures SuccessRight(w, after, fit) && VersionRight(w, after, fit)
  {
    if s.store.version.Some? {
      forall c | d <= c && w.manifest(c) == s.store.version ensures Says(w, after, c, fit) {
        SameManifestSamePayload(w, s, d, c);
      }
    }
  }

  lemma StoreFileKeeps(w: World, s: State, name: string, fit: bool)
    requires w.ManifestsTell() && Invariant(w, s, fit) && Enabled(w, s, StoreFile(name))
    ensures Invariant(w, Apply(w, s, StoreFile(name)), fit)
  {
    var d, after := s.task.value.phase.commit, Apply(w, s, StoreFile(name));
    assert name in w.payload(d) && w.payload(d)[name].Some?;
    if StoredSoFar(w, s, d, RecordFiles(w.payload(d))) {
      assert after.store.data == s.store.data;
    }
    WriteKeepsDescriptions(w, s, d, after, fit);
  }

  /** The payload about to be pruned to has files, or nothing is stored; and no
      stored entity is named by a file without records. */
  predicate PruneFits(w: World, s: State) {
    s.task.Some? && s.task.value.phase.Stored? ==>
      var payload := w.payload(s.task.value.phase.commit);
      && (payload == map[] ==> s.store.data == map[])
      && (forall name :: name in s.store.data && name in payload ==> payload[name].Some?)
  }

  /** Once every record file is stored, pruning leaves exactly the payload if
      and only if the payload fits. */
  lemma StoredThenPruned(w: World, s: State)
    requires s.task.Some? && s.task.value.phase.Stored?
    requires StoredSoFar(w, s, s.task.value.phase.commit, RecordFiles(w.payload(s.task.value.phase.commit)))
    ensures Pruned(s.store.data, w.payload(s.task.value.phase.commit)) == w.Load(s.task.value.phase.commit) <==> PruneFits(w, s)
  {
    var payload := w.payload(s.task.value.phase.commit);
    var after, entities := Pruned(s.store.data, payload), Entities(payload);
    if payload == map[] {
      assert entities == map[];
    } else {
      forall name | name in s.store.data && name in payload && payload[name].None? ensures after != entities {
        assert name in after && name !in entities;
      }
      if PruneFits(w, s) {
        assert after.Keys == entities.Keys;
      }
    }
  }

  lemma PruneKeeps(w: World, s: State, fit: bool)
    requires w.ManifestsTell() && Invariant(w, s, fit) && Enabled(w, s, Prune)
    ensures Invariant(w, Apply(w, s, Prune), PruneFits(w, s))
  {
    StoredThenPruned(w, s);
    DescribedBy(w, s, s.task.value.phase.commit, Apply(w, s, Prune), PruneFits(w, s));
  }

  lemma StoreVersionKeeps(w: World, s: State, fit: bool)
    requires w.ManifestsTell() && Invariant(w, s, fit) && Enabled(w, s, StoreVersion)
    ensures Invariant(w, Apply(w, s, StoreVersion), fit)
  {
    var d, after := s.task.value.phase.commit, Apply(w, s, StoreVersion);
    if w.manifest(d).Some? {
      forall c | d <= c && w.manifest(c) == w.manifest(d) ensures Says(w, after, c, fit) {
        assert w.payload(c) == w.payload(d) by {
          assert w.manifest(d) == w.manifest(c) && d <= c <= c;
        }
      }
    }
  }

  lemma FinishKeeps(w: World, s: State, fit: bool)
    requires w.ManifestsTell() && Invariant(w, s, fit) && Enabled(w, s, Finish)
    ensures Invariant(w, Apply(w, s, Finish), fit)
  {
  }

  // ---------------------------------------------------------------- other steps

  lemma SourceKeeps(w: World, s: State, fit: bool)
    requires w.ManifestsTell() && Invariant(w, s, fit)
    ensures Invariant(w, Apply(w, s, SourceAdvances), fit)
  {
  }

  lemma BeginKeeps(w: World, s: State, force: bool, ready: bool, fit: bool)
    requires w.ManifestsTell() && Invariant(w, s, fit) && Enabled(w, s, Begin(force, ready))
    ensures Invariant(w, Apply(w, s, Begin(force, ready)), fit)
  {
  }

  lemma ProgressKeeps(w: World, s: State, step: Step, fit: bool)
    requires w.ManifestsTell() && Invariant(w, s, fit) && Enabled(w, s, step)
    requires step.Resolve? || step.MarkRunning? || step.LoadSucceeds? || step.StoreSucceeds?
    ensures Invariant(w, Apply(w, s, step), fit)
  {
  }

  lemma ShortcutKeeps(w: World, s: State, step: Step, fit: bool)
    requires w.ManifestsTell() && Invariant(w, s, fit) && Enabled(w, s, step)
    requires step.SkipUnchangedCommit? || step.SkipUnchangedManifest? || step.RateLimited?
    ensures Invariant(w, Apply(w, s, step), fit)
  {
  }

  lemma EndKeeps(w: World, s: State, step: Step, fit: bool)
    requires w.ManifestsTell() && Invariant(w, s, fit) && Enabled(w, s, step) && (step.Fail? || step.CutOff?)
    ensures Invariant(w, Apply(w, s, step), fit)
  {
  }

  /** Only a prune changes whether the last prune fitted. */
  predicate FitAfter(w: World, s: State, step: Step, fit: bool) {
    if step.Prune? then PruneFits(w, s) else fit
  }

  lemma StepKeepsInvariant(w: World, s: State, step: Step, fit: bool)
    requires w.ManifestsTell() && Invariant(w, s, fit) && Enabled(w, s, step)
    ensures Invariant(w, Apply(w, s, step), FitAfter(w, s, step, fit))
  {
    match step {
      case SourceAdvances => SourceKeeps(w, s, fit);
      case Begin(force, ready) => BeginKeeps(w, s, force, ready, fit);
      case StoreFile(name) => StoreFileKeeps(w, s, name, fit);
      case Prune => PruneKeeps(w, s, fit);
      case StoreVersion => StoreVersionKeeps(w, s, fit);
      case Finish => FinishKeeps(w, s, fit);
      case SkipUnchangedCommit => ShortcutKeeps(w, s, step, fit);
      case SkipUnchangedManifest => ShortcutKeeps(w, s, step, fit);
      case RateLimited => ShortcutKeeps(w, s, step, fit);
      case Fail => EndKeeps(w, s, step, fit);
      case CutOff => EndKeeps(w, s, step, fit);
      case _ => ProgressKeeps(w, s, step, fit);
    }
  }

  // ---------------------------------------------------------------- runs

  ghost predicate Run(w: World, steps: seq<Step>, states: seq<State>) {
    && |states| == |steps| + 1 && states[0] == INITIAL
    && forall i :: 0 <= i < |steps| ==> Takes(w, steps, states, i)
  }

  ghost predicate Takes(w: World, steps: seq<Step>, states: seq<State>, i: nat)
    requires i < |steps| && |states| == |steps| + 1
  {
    Enabled(w, states[i], steps[i]) && states[i + 1] == Apply(w, states[i], steps[i])
  }

  /** The last prune before a point of a run, if there was one, fitted. */
  predicate LastPruneFits(w: World, steps: seq<Step>, states: seq<State>, i: nat)
    requires i <= |steps| < |states|
  {
    i == 0 || FitAfter(w, states[i - 1], steps[i - 1], LastPruneFits(w, steps, states, i - 1))
  }

  lemma {:induction false} RunKeepsInvariant(w: World, steps: seq<Step>, states: seq<State>, i: nat)
    requires w.ManifestsTell() && Run(w, steps, states) && i < |states|
    ensures Invariant(w, states[i], LastPruneFits(w, steps, states, i))
  {
    if i > 0 {
      RunKeepsInvariant(w, steps, states, i - 1);
      assert Takes(w, steps, states, i - 1);
      StepKeepsInvariant(w, states[i - 1], steps[i - 1], LastPruneFits(w, steps, states, i - 1));
    }
  }

  /** Over every sequence of runs: full, forced, failed, cut off, skipped or rate
      limited, whatever pruned before: whenever the latest status is a success with
      a commit, that commit's record files are all stored, and they are all that is
      stored if and only if the last prune fitted. */
  lemma SuccessExact(w: World, steps: seq<Step>, states: seq<State>, i: nat)
    requires w.ManifestsTell() && Run(w, steps, states) && i < |states|
    requires LatestIsSuccess(states[i]) && states[i].statuses.latest.value.commit.Some?
    ensures var c := states[i].statuses.latest.value.commit.value;
            && (forall name :: name in w.Load(c) ==> name in states[i].store.data && states[i].store.data[name] == w.Load(c)[name])
            && (states[i].store.data == w.Load(c) <==> LastPruneFits(w, steps, states, i))
  {
    RunKeepsInvariant(w, steps, states, i);
  }

  /** Every prune of a run finds a payload that fits. */
  ghost predicate FittingRun(w: World, steps: seq<Step>, states: seq<State>) {
    Run(w, steps, states) && forall i :: 0 <= i < |steps| && steps[i].Prune? ==> PruneFits(w, states[i])
  }

  lemma {:induction false} FittingRunsFit(w: World, steps: seq<Step>, states: seq<State>, i: nat)
    requires FittingRun(w, steps, states) && i < |states|
    ensures LastPruneFits(w, steps, states, i)
  {
    if i > 0 {
      FittingRunsFit(w, steps, states, i - 1);
    }
  }

  /** So where every prune fits, a latest success with a commit means that the
      stored entities are exactly what that commit loads. */
  lemma SuccessMeansStored(w: World, steps: seq<Step>, states: seq<State>, i: nat)
    requires w.ManifestsTell() && FittingRun(w, steps, states) && i < |states|
    requires LatestIsSuccess(states[i]) && states[i].statuses.latest.value.commit.Some?
    ensures states[i].store.data == w.Load(states[i].statuses.latest.value.commit.value)
  {
    FittingRunsFit(w, steps, states, i);
    SuccessExact(w, steps, states, i);
  }

  // ---------------------------------------------------------------- statuses of every run

  /** What a run has said so far: nothing, or a pending or running status, which
      it has always saved before it loads. */
  predicate StatusRight(s: State) {
    s.task.Some? ==>
      && (s.task.value.marked ==> !LatestIsSuccess(s))
      && (!s.task.value.marked ==> s.task.value.wasSuccess == LatestIsSuccess(s))
      && (s.task.value.phase != Begun && s.task.value.phase != Resolved ==> s.task.value.marked)
  }

  lemma {:induction false} RunKeepsStatus(w: World, steps: seq<Step>, states: seq<State>, i: nat)
    requires Run(w, steps, states) && i < |states|
    ensures StatusRight(states[i])
  {
    if i > 0 {
      RunKeepsStatus(w, steps, states, i - 1);
      assert Takes(w, steps, states, i - 1);
    }
  }

  /** In every run: a run that fails or is cut off leaves the latest status
      non-success exactly when it had saved a pending or running status or found
      none that was a success; otherwise it has written nothing. */
  lemma BadEnd(w: World, steps: seq<Step>, states: seq<State>, i: nat)
    requires Run(w, steps, states) && i < |steps| && (steps[i].Fail? || steps[i].CutOff?)
    ensures states[i].task.Some?
    ensures LatestIsSuccess(states[i + 1]) <==> !states[i].task.value.marked && states[i].task.value.wasSuccess
    ensures !states[i].task.value.marked ==> states[i].task.value.phase.Begun? || states[i].task.value.phase.Resolved?
    ensures states[i + 1].store == states[i].store
  {
    RunKeepsStatus(w, steps, states, i);
    assert Takes(w, steps, states, i);
  }

  /** In every run: no entity or version payload is written before a running
      status is saved. */
  lemma WritesOnlyWhileRunning(w: World, steps: seq<Step>, states: seq<State>, i: nat)
    requires Run(w, steps, states) && i < |steps| && states[i + 1].store != states[i].store
    ensures states[i].task.Some? && states[i].task.value.marked && !LatestIsSuccess(states[i])
    ensures !LatestIsSuccess(states[i + 1])
  {
    RunKeepsStatus(w, steps, states, i);
    assert Takes(w, steps, states, i);
  }

  // ---------------------------------------------------------------- the store phase of every run

  /** What a run has stored of its payload, and that it stores what it resolved. */
  ghost predicate PhaseRight(w: World, s: State) {
    s.task.Some? ==>
      var task := s.task.value;
      && (task.phase.Storing? ==> StoredSoFar(w, s, task.phase.commit, task.phase.done))
      && (task.phase.Stored? ==> StoredSoFar(w, s, task.phase.commit, RecordFiles(w.payload(task.phase.commit))))
      && (WritesFrom(task.phase).Some? && task.resolved.Some? ==> task.resolved == WritesFrom(task.phase))
  }

  lemma {:induction false} RunKeepsPhase(w: World, steps: seq<Step>, states: seq<State>, i: nat)
    requires Run(w, steps, states) && i < |states|
    ensures PhaseRight(w, states[i])
  {
    if i > 0 {
      RunKeepsPhase(w, steps, states, i - 1);
      assert Takes(w, steps, states, i - 1);
    }
  }

  /** In every run, a prune leaves exactly what the commit loads if and only if
      the payload fits the store. */
  lemma PruneExact(w: World, steps: seq<Step>, states: seq<State>, i: nat)
    requires Run(w, steps, states) && i < |steps| && steps[i].Prune?
    ensures states[i].task.Some? && states[i].task.value.phase.Stored?
    ensures states[i + 1].store.data == w.Load(states[i].task.value.phase.commit) <==> PruneFits(w, states[i])
  {
    RunKeepsPhase(w, steps, states, i);
    assert Takes(w, steps, states, i);
    StoredThenPruned(w, states[i]);
  }

  /** No step between two points of a run ends it. */
  predicate SameRun(steps: seq<Step>, i: nat, j: nat)
    requires i <= j <= |steps|
  {
    forall k :: i <= k < j ==> !Ends(steps[k])
  }

  predicate Ends(step: Step) {
    step.Finish? || step.Fail? || step.CutOff? || step.RateLimited? || step.SkipUnchangedCommit? || step.SkipUnchangedManifest?
  }

  predicate AfterPrune(phase: Phase) {
    phase.PrunedTo? || phase.VersionStored?
  }

  lemma {:induction false} PrunedDataStays(w: World, steps: seq<Step>, states: seq<State>, i: nat, j: nat)
    requires Run(w, steps, states) && i < j < |states| && steps[i].Prune? && SameRun(steps, i, j)
    ensures states[i].task.Some? && states[i].task.value.phase.Stored? && states[j].task.Some?
    ensures AfterPrune(states[j].task.value.phase) && states[j].store.data == states[i + 1].store.data
    ensures states[j].task.value.phase.commit == states[i].task.value.phase.commit
    ensures states[j].task.value.resolved == states[i].task.value.resolved
    decreases j
  {
    assert Takes(w, steps, states, j - 1);
    if i + 1 < j {
      PrunedDataStays(w, steps, states, i, j - 1);
      assert !Ends(steps[j - 1]);
    }
  }

  /** In every run, whatever came before: the success a full sync ends with names
      a commit whose load is what is stored if and only if its prune fitted. */
  lemma FullSyncExact(w: World, steps: seq<Step>, states: seq<State>, i: nat, j: nat)
    requires Run(w, steps, states) && i < j < |steps| && SameRun(steps, i, j)
    requires steps[i].Prune? && steps[j].Finish? && states[j].task.Some? && states[j].task.value.resolved.Some?
    ensures LatestIsSuccess(states[j + 1]) && states[j + 1].statuses.latest.value.commit.Some?
    ensures states[j + 1].store.data == w.Load(states[j + 1].statuses.latest.value.commit.value)
       <==> PruneFits(w, states[i])
  {
    PruneExact(w, steps, states, i);
    PrunedDataStays(w, steps, states, i, j);
    RunKeepsPhase(w, steps, states, j);
    assert Takes(w, steps, states, j);
  }

  /** A payload's record files stored so far. */
  function Done(payload: Payload, done: set<string>): Data {
    map name | name in payload && name in done && payload[name].Some? :: payload[name].value
  }

  /** The data while a payload is being stored: what it was, overwritten by the
      files stored so far. */
  predicate OverwrittenSoFar(w: World, before: Data, s: State) {
    && s.task.Some?
    && match s.task.value.phase
       case Storing(c, done) => s.store.data == before + Done(w.payload(c), done)
       case Stored(c) => s.store.data == Overwritten(before, w.payload(c))
       case _ => false
  }

  lemma DoneGrows(before: Data, payload: Payload, done: set<string>, name: string)
    requires name in RecordFiles(payload)
    ensures (before + Done(payload, done))[name := payload[name].value] == before + Done(payload, done + {name})
  {
  }

  lemma AllDone(payload: Payload, done: set<string>)
    requires RecordFiles(payload) <= done
    ensures Done(payload, done) == Entities(payload)
  {
    forall name | name in payload && payload[name].Some? ensures name in done {
      assert name in RecordFiles(payload);
    }
  }

  lemma StoringStep(w: World, before: Data, s: State, step: Step)
    requires OverwrittenSoFar(w, before, s) && Enabled(w, s, step) && !Ends(step) && !step.Prune?
    ensures OverwrittenSoFar(w, before, Apply(w, s, step))
  {
    if step.StoreFile? {
      DoneGrows(before, w.payload(s.task.value.phase.commit), s.task.value.phase.done, step.name);
    } else if step.StoreSucceeds? {
      AllDone(w.payload(s.task.value.phase.commit), s.task.value.phase.done);
    }
  }

  lemma {:induction false} StorePhase(w: World, steps: seq<Step>, states: seq<State>, i: nat, j: nat)
    requires Run(w, steps, states) && i < j < |states| && steps[i].LoadSucceeds? && SameRun(steps, i, j)
    requires forall k :: i <= k < j ==> !steps[k].Prune?
    ensures OverwrittenSoFar(w, states[i].store.data, states[j])
    decreases j
  {
    assert Takes(w, steps, states, j - 1);
    if i + 1 < j {
      StorePhase(w, steps, states, i, j - 1);
      assert !Ends(steps[j - 1]) && !steps[j - 1].Prune?;
      StoringStep(w, states[i].store.data, states[j - 1], steps[j - 1]);
    }
  }

  /** In every run, loading, storing file by file and pruning amount to
      overwriting the data with the payload and pruning it to the payload. */
  lemma StoreAndPruneRun(w: World, steps: seq<Step>, states: seq<State>, i: nat, j: nat)
    requires Run(w, steps, states) && i < j < |steps| && steps[i].LoadSucceeds? && SameRun(steps, i, j)
    requires steps[j].Prune? && forall k :: i <= k < j ==> !steps[k].Prune?
    ensures states[j].task.Some? && states[j].task.value.phase.Stored?
    ensures var payload := w.payload(states[j].task.value.phase.commit);
            states[j + 1].store.data == Pruned(Overwritten(states[i].store.data, payload), payload)
  {
    assert Takes(w, steps, states, j);
    StorePhase(w, steps, states, i, j);
  }

  // ---------------------------------------------------------------- version payloads and statuses of every run

  /** What a run has done to the stored version payload it found: nothing before
      its version phase; from then on it is that of the commit written, if the
      commit has one. */
  predicate VersionSince(w: World, found: Option<string>, s: State) {
    && s.task.Some?
    && s.store.version
         == match s.task.value.phase
            case VersionStored(c) => if w.manifest(c).Some? then w.manifest(c) else found
            case _ => found
  }

  lemma {:induction false} VersionPhase(w: World, steps: seq<Step>, states: seq<State>, i: nat, j: nat)
    requires Run(w, steps, states) && i < j < |states| && steps[i].Begin? && SameRun(steps, i, j)
    ensures VersionSince(w, states[i].store.version, states[j])
    decreases j
  {
    assert Takes(w, steps, states, j - 1);
    if i + 1 < j {
      VersionPhase(w, steps, states, i, j - 1);
      assert !Ends(steps[j - 1]);
    }
  }

  /** In every run: a full sync that ends in success has stored the version
      payload of the commit it wrote, the one its status names, and has left the
      stored one alone if that commit has none. */
  lemma FullSyncStoresVersion(w: World, steps: seq<Step>, states: seq<State>, i: nat, j: nat) returns (c: nat)
    requires Run(w, steps, states) && i < j < |steps| && steps[i].Begin? && steps[j].Finish? && SameRun(steps, i, j)
    ensures states[j + 1].store.version == if w.manifest(c).Some? then w.manifest(c) else states[i].store.version
    ensures LatestIsSuccess(states[j + 1])
    ensures var named := states[j + 1].statuses.latest.value.commit; named.Some? ==> named.value == c
  {
    VersionPhase(w, steps, states, i, j);
    RunKeepsPhase(w, steps, states, j);
    assert Takes(w, steps, states, j);
    c := states[j].task.value.phase.commit;
  }

  /** In every run: nothing else ever changes the stored version payload. */
  lemma VersionChangesThere(w: World, steps: seq<Step>, states: seq<State>, i: nat)
    requires Run(w, steps, states) && i < |steps| && states[i + 1].store.version != states[i].store.version
    ensures steps[i].StoreVersion? && states[i].task.Some? && states[i].task.value.phase.PrunedTo?
    ensures states[i + 1].store.version == w.manifest(states[i].task.value.phase.commit)
    ensures states[i + 1].store.data == states[i].store.data
  {
    assert Takes(w, steps, states, i);
  }

  /** From its running status to its end, a run's latest status is that one. */
  predicate RunningRight(s: State) {
    s.task.Some? && s.task.value.phase != Begun && s.task.value.phase != Resolved ==>
      s.statuses.latest == Some(Status(Running, s.task.value.resolved))
  }

  lemma {:induction false} RunningWhileLoading(w: World, steps: seq<Step>, states: seq<State>, i: nat)
    requires Run(w, steps, states) && i < |states|
    ensures RunningRight(states[i]) && (states[i].task.Some? ==> states[i].task.value.previous == states[i].statuses.success)
  {
    if i > 0 {
      RunningWhileLoading(w, steps, states, i - 1);
      assert Takes(w, steps, states, i - 1);
    }
  }

  /** In every run: the status a step leaves. A run that completes or skips leaves
      success with the commit it resolved, a rate-limited one success with the
      commit of the last success, a failed one failure; one that is cut off leaves
      what there was. The last success is only replaced by a success, and ending
      writes nothing. */
  lemma StatusesExact(w: World, steps: seq<Step>, states: seq<State>, i: nat)
    requires Run(w, steps, states) && i < |steps| && Ends(steps[i])
    ensures states[i].task.Some? && states[i + 1].task.None? && states[i + 1].store == states[i].store
    ensures var before, after, resolved := states[i].statuses, states[i + 1].statuses, states[i].task.value.resolved;
            match steps[i]
            case Fail => after == Statuses(Some(Status(Failed, resolved)), before.success)
            case CutOff => after == before
            case RateLimited => before.success.Some? && after == Statuses(Some(Status(Success, before.success.value)), before.success)
            case _ => after == Statuses(Some(Status(Success, resolved)), Some(resolved))
  {
    RunningWhileLoading(w, steps, states, i);
    assert Takes(w, steps, states, i);
  }

  /** In every run: a run that starts cold saves a pending status, and one that
      goes on to load a running one; no other step touches statuses before the
      end. */
  lemma StatusesBeforeTheEnd(w: World, steps: seq<Step>, states: seq<State>, i: nat)
    requires Run(w, steps, states) && i < |steps| && !Ends(steps[i])
    ensures states[i + 1].statuses.success == states[i].statuses.success
    ensures match steps[i]
            case Begin(_, ready) =>
              if ready then states[i + 1].statuses == states[i].statuses
              else var before := states[i].statuses;
                   states[i + 1].statuses.latest
                     == Some(Status(Pending, if before.success.Some? then before.success.value
                                             else if before.latest.Some? then before.latest.value.commit else None))
            case MarkRunning =>
              states[i].task.Some? && states[i + 1].statuses.latest == Some(Status(Running, states[i].task.value.resolved))
            case _ => states[i + 1].statuses == states[i].statuses
  {
    assert Takes(w, steps, states, i);
  }

  lemma {:induction false} TaskStays(w: World, steps: seq<Step>, states: seq<State>, i: nat, j: nat)
    requires Run(w, steps, states) && i < j < |states| && steps[i].Begin? && SameRun(steps, i, j)
    ensures states[j].task.Some?
    ensures var task := states[j].task.value;
            task.force == steps[i].force && task.ready == steps[i].ready && task.wasSuccess == LatestIsSuccess(states[i])
    decreases j
  {
    assert Takes(w, steps, states, j - 1);
    if i + 1 < j {
      TaskStays(w, steps, states, i, j - 1);
      assert !Ends(steps[j - 1]);
    }
  }

  /** In every run: what a shortcut was taken on. A forced run never skips; the
      commit shortcut finds the commit of the last success resolved again, with
      entities and a version payload stored; the manifest shortcut, in a store
      that holds the region, another commit whose manifest is the stored version
      payload; the rate limit only falls back on a region that is held and whose
      latest status was success when the run began. */
  lemma ShortcutsTakenOn(w: World, steps: seq<Step>, states: seq<State>, i: nat, j: nat)
    requires Run(w, steps, states) && i < j < |steps| && steps[i].Begin? && SameRun(steps, i, j)
    ensures states[j].task.Some?
    ensures steps[j].SkipUnchangedCommit? ==>
              !steps[i].force && states[j].task.value.resolved.Some? &&
              states[j].statuses.success == Some(states[j].task.value.resolved) &&
              states[j].store.data != map[] && states[j].store.version.Some?
    ensures steps[j].SkipUnchangedManifest? ==>
              !steps[i].force && steps[i].ready && states[j].task.value.resolved.Some? &&
              states[j].statuses.success.Some? && states[j].statuses.success.value.Some? &&
              states[j].statuses.success.value != states[j].task.value.resolved &&
              states[j].store.version.Some? && states[j].store.version == w.manifest(states[j].task.value.resolved.value)
    ensures steps[j].RateLimited? ==> steps[i].ready && LatestIsSuccess(states[i]) && states[j].statuses.success.Some?
  {
    TaskStays(w, steps, states, i, j);
    RunningWhileLoading(w, steps, states, j);
    assert Takes(w, steps, states, j);
  }

  // ---------------------------------------------------------------- when payloads fit

  /** Only entities some commit holds records of are ever stored. */
  ghost predicate KnownNames(w: World, s: State) {
    forall name :: name in s.store.data ==> w.HoldsRecords(name)
  }

  lemma {:induction false} RunKnowsNames(w: World, steps: seq<Step>, states: seq<State>, i: nat)
    requires Run(w, steps, states) && i < |states|
    ensures KnownNames(w, states[i])
  {
    if i > 0 {
      RunKnowsNames(w, steps, states, i - 1);
      assert Takes(w, steps, states, i - 1);
      if steps[i - 1].StoreFile? {
        assert w.HoldsRecords(steps[i - 1].name);
      }
    }
  }

  /** When every payload has files, and a file without records in one commit has
      none in any, every prune of every run fits. */
  lemma ShapedRunsFit(w: World, steps: seq<Step>, states: seq<State>)
    requires w.Shaped() && Run(w, steps, states)
    ensures FittingRun(w, steps, states)
  {
    forall i | 0 <= i < |steps| && steps[i].Prune? ensures PruneFits(w, states[i]) {
      RunKnowsNames(w, steps, states, i);
    }
  }

  // ---------------------------------------------------------------- runs that misreport

  const STALE := Contents(["k"], ["v"])

  /** A source whose first commit holds the records of one entity, and whose later
      commits hold some other payload. */
  function Source(later: Payload): World {
    World(c => if c == 0 then map["a" := Some(STALE)] else later, _ => None)
  }

  /** A payload without records that prunes nothing: it is empty, or has a file of
      the entity's name that is no longer an array. */
  predicate LeavesStale(later: Payload) {
    later == map[] || later == map["a" := None]
  }

  lemma OneMore(w: World, steps: seq<Step>, states: seq<State>, step: Step) returns (more: seq<Step>, after: seq<State>)
    requires Run(w, steps, states) && Enabled(w, states[|steps|], step)
    ensures Run(w, more, after) && |more| == |steps| + 1 && after[|more|] == Apply(w, states[|steps|], step)
    ensures more == steps + [step] && states <= after
  {
    more, after := steps + [step], states + [Apply(w, states[|steps|], step)];
    forall i | 0 <= i < |more| ensures Takes(w, more, after, i) {
      assert i < |steps| ==> Takes(w, steps, states, i);
    }
  }

  /** A run that resolves the newest commit and loads it. */
  lemma LoadRun(w: World, steps: seq<Step>, states: seq<State>) returns (more: seq<Step>, after: seq<State>)
    requires Run(w, steps, states) && states[|steps|].task.None?
    ensures Run(w, more, after)
    ensures var s := states[|steps|];
            after[|more|] == State(s.head, s.store, Statuses(Some(Status(Running, Some(s.head))), s.statuses.success),
                                   Some(Task(false, true, s.statuses.success, LatestIsSuccess(s), Some(s.head), true,
                                             Storing(s.head, {}))))
  {
    more, after := OneMore(w, steps, states, Begin(false, true));
    more, after := OneMore(w, more, after, Resolve(true));
    more, after := OneMore(w, more, after, MarkRunning);
    more, after := OneMore(w, more, after, LoadSucceeds);
  }

  /** Once its files are stored, it prunes, finds no version payload and succeeds. */
  lemma FinishRun(w: World, steps: seq<Step>, states: seq<State>, c: nat) returns (more: seq<Step>, after: seq<State>)
    requires Run(w, steps, states) && Enabled(w, states[|steps|], StoreSucceeds) && w.manifest(c).None?
    requires states[|steps|].task.value.phase.commit == c && states[|steps|].task.value.resolved == Some(c)
    ensures Run(w, more, after)
    ensures var s := states[|steps|];
            after[|more|] == State(s.head, s.store.(data := Pruned(s.store.data, w.payload(c)), written := c),
                                   Statuses(Some(Status(Success, Some(c))), Some(Some(c))), None)
  {
    more, after := OneMore(w, steps, states, StoreSucceeds);
    more, after := OneMore(w, more, after, Prune);
    more, after := OneMore(w, more, after, StoreVersion);
    more, after := OneMore(w, more, after, Finish);
  }

  /** The first run stores the entity and succeeds. */
  lemma FirstRun(later: Payload) returns (steps: seq<Step>, states: seq<State>)
    ensures Run(Source(later), steps, states)
    ensures states[|steps|] == State(0, Store(map["a" := STALE], None, 0, 0),
                                     Statuses(Some(Status(Success, Some(0))), Some(Some(0))), None)
  {
    var w := Source(later);
    steps, states := LoadRun(w, [], [INITIAL]);
    steps, states := OneMore(w, steps, states, StoreFile("a"));
    assert states[|steps|].store.data == map["a" := STALE];
    assert Pruned(map["a" := STALE], w.payload(0)) == map["a" := STALE];
    steps, states := FinishRun(w, steps, states, 0);
  }

  /** Runs from the start that misreport: the second full sync loads a commit that
      is empty, or whose file of the entity is no longer an array; it prunes
      nothing, and ends in success over the first commit's records. */
  lemma SuccessOverStaleData(later: Payload) returns (steps: seq<Step>, states: seq<State>)
    requires LeavesStale(later)
    ensures Source(later).ManifestsTell() && Run(Source(later), steps, states)
    ensures states[|steps|].statuses.latest == Some(Status(Success, Some(1)))
    ensures states[|steps|].store.data == map["a" := STALE] && Source(later).Load(1) == map[]
  {
    var w := Source(later);
    steps, states := FirstRun(later);
    steps, states := OneMore(w, steps, states, SourceAdvances);
    steps, states := LoadRun(w, steps, states);
    assert RecordFiles(w.payload(1)) == {};
    assert Pruned(map["a" := STALE], later) == map["a" := STALE];
    steps, states := FinishRun(w, steps, states, 1);
  }

  // ---------------------------------------------------------------- runs that complete

  /** Stores what is left of a payload's record files. */
  lemma {:induction false} StoreRest(w: World, steps: seq<Step>, states: seq<State>, left: set<string>)
    returns (more: seq<Step>, after: seq<State>)
    requires Run(w, steps, states) && states[|steps|].task.Some? && states[|steps|].task.value.phase.Storing?
    requires left == RecordFiles(w.payload(states[|steps|].task.value.phase.commit)) - states[|steps|].task.value.phase.done
    ensures Run(w, more, after) && steps <= more && after[|more|].task.Some? && after[|more|].task.value.phase.Stored?
    ensures after[|more|].task.value.resolved == states[|steps|].task.value.resolved
    decreases left
  {
    var phase := states[|steps|].task.value.phase;
    if left == {} {
      forall name | name in RecordFiles(w.payload(phase.commit)) ensures name in phase.done {
        assert name !in left;
      }
      more, after := OneMore(w, steps, states, StoreSucceeds);
    } else {
      var name :| name in left;
      more, after := OneMore(w, steps, states, StoreFile(name));
      more, after := StoreRest(w, more, after, left - {name});
    }
  }

  lemma Prepare(w: World, steps: seq<Step>, states: seq<State>) returns (more: seq<Step>, after: seq<State>)
    requires Run(w, steps, states) && states[|steps|].task.Some? && WritesFrom(states[|steps|].task.value.phase).None?
    ensures Run(w, more, after) && steps <= more && after[|more|].task.Some? && after[|more|].task.value.phase.Storing?
  {
    more, after := steps, states;
    if after[|more|].task.value.phase.Begun? {
      more, after := OneMore(w, more, after, Resolve(true));
    }
    if after[|more|].task.value.phase.Resolved? {
      more, after := OneMore(w, more, after, MarkRunning);
    }
    more, after := OneMore(w, more, after, LoadSucceeds);
  }

  lemma FromStored(w: World, steps: seq<Step>, states: seq<State>) returns (more: seq<Step>, after: seq<State>)
    requires Run(w, steps, states) && states[|steps|].task.Some?
    requires WritesFrom(states[|steps|].task.value.phase).Some? && !states[|steps|].task.value.phase.Storing?
    ensures Run(w, more, after) && steps <= more && after[|more|].task.None? && LatestIsSuccess(after[|more|])
  {
    more, after := steps, states;
    if after[|more|].task.value.phase.Stored? {
      more, after := OneMore(w, more, after, Prune);
    }
    if after[|more|].task.value.phase.PrunedTo? {
      more, after := OneMore(w, more, after, StoreVersion);
    }
    more, after := OneMore(w, more, after, Finish);
  }

  /** No run is ever stuck: whatever it has done so far, it can go on to load,
      store, prune and end in success with the commit it resolved. */
  lemma EveryRunCanComplete(w: World, steps: seq<Step>, states: seq<State>) returns (more: seq<Step>, after: seq<State>)
    requires Run(w, steps, states) && states[|steps|].task.Some?
    ensures Run(w, more, after) && steps <= more && after[|more|].task.None?
    ensures LatestIsSuccess(after[|more|])
  {
    more, after := steps, states;
    if WritesFrom(after[|more|].task.value.phase).None? {
      more, after := Prepare(w, more, after);
    }
    if after[|more|].task.value.phase.Storing? {
      var phase := after[|more|].task.value.phase;
      more, after := StoreRest(w, more, after, RecordFiles(w.payload(phase.commit)) - phase.done);
    }
    more, after := FromStored(w, more, after);
  }

  /** And a shortcut is there to be taken: a run that resolves the commit of the last
      success over a store that holds entities and a version payload can skip, one
      whose commit is another with the stored version payload too, and a load that
      is rate limited can fall back on the last success. */
  lemma ShortcutsAreOpen(w: World, s: State)
    requires s.task.Some? && s.task.value.resolved.Some? && s.task.value.previous.Some?
    ensures (&& s.task.value.phase.Resolved? && !s.task.value.force && s.task.value.previous.value == s.task.value.resolved
             && s.store.data != map[] && s.store.version.Some?) ==>
              Enabled(w, s, SkipUnchangedCommit)
    ensures (&& s.task.value.phase.Resolved? && !s.task.value.force && s.task.value.ready
             && s.task.value.previous.value.Some? && s.task.value.previous.value != s.task.value.resolved
             && s.store.version.Some? && s.store.version == w.manifest(s.task.value.resolved.value)) ==>
              Enabled(w, s, SkipUnchangedManifest)
    ensures s.task.value.phase.Loading? && s.task.value.ready && s.task.value.wasSuccess ==> Enabled(w, s, RateLimited)
    ensures Enabled(w, s, CutOff)
    ensures !s.task.value.phase.Begun? && !s.task.value.phase.Resolved? ==> Enabled(w, s, Fail)
  {
  }
}
