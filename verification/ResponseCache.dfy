/** The response cache (internal/transport/http/responsecache/middleware.go) next
    to a syncing region: requests look up, one of those that miss runs the
    handler and stores its response, the others wait for it and replay it, in any
    interleaving with syncs and the passing of time. A sync
    saves its running status, which leaves the region without a revision, before
    it writes data, and every success status is a revision never seen before
    (internal/usecase/master_data_sync_usecase.go, RegionCacheRevision). */
module ResponseCaches {
  import opened Text
  import opened CacheKeys
  import opened CacheEntries
  import opened EntityContents

  /** A region's stored data. */
  type Data = map<string, Contents>

  /** The shortest lifetime worth storing: one second, in nanoseconds. */
  const MIN_TTL := 1_000_000_000

  /** What is cached and how: the handlers' answers, the earliest moment they
      report an answer may change, and the cache's settings. */
  datatype World = World(
    handle: (Data, Request, int) -> Entry,
    changes: (Data, Request, int) -> Option<int>,
    key: (Name, Request) -> string,
    codec: Codec,
    ttl: int,
    maxEntryBytes: nat)
  {
    /** A cached route depends only on its request, the region's data, and time
        it reports through ValidUntil. */
    ghost predicate Honest() {
      forall data: Data, request: Request, t: int, later: int ::
        t <= later && (changes(data, request, t).Some? ==> later < changes(data, request, t).value) ==>
          handle(data, request, later) == handle(data, request, t)
    }

    ghost predicate KeysTellApart() {
      forall r: Name, p: Request, s: Name, q: Request :: key(r, p) == key(s, q) ==> r == s && p == q
    }

    ghost predicate Valid() {
      Honest() && KeysTellApart() && codec.Inverse() && maxEntryBytes <= MAX_BODY_SIZE
    }

    /** The lifetime of a response stored now. */
    function Ttl(now: int, until: Option<int>): int {
      if until.Some? && until.value - now < ttl then until.value - now else ttl
    }

    predicate Cacheable(response: Entry) {
      response.status == 200 && |response.body| <= maxEntryBytes
    }
  }

  /** The keys the middleware computes tell revisions and requests apart. */
  lemma ComputedKeysTellApart(w: World, sha: string -> string, build: Name, region: Name)
    requires forall s, t :: sha(s) == sha(t) ==> s == t
    requires forall r: Name, p: Request :: KeyFor(sha, build, region, r, p, w.key(r, p))
    ensures w.KeysTellApart()
  {
    forall r: Name, p: Request, s: Name, q: Request | w.key(r, p) == w.key(s, q) ensures r == s && p == q {
      KeysDetermine(sha, build, region, r, p, build, region, s, q, w.key(r, p));
    }
  }

  /** A stored response; revision, request and ranAt say where it comes from. */
  datatype Stored = Stored(raw: seq<Byte>, expires: int, revision: Name, request: Request, ranAt: int)

  /** What a handler run came to: its response, the moment it reported, and when
      it read the data. */
  datatype Answer = Answer(response: Entry, until: Option<int>, ranAt: int)

  /** A request has looked its key up; it runs the handler for its key, or waits
      for the request that does; then it replays that one's response, or runs the
      handler alone when there is none to share. */
  datatype Phase =
    | Looked
    | Handling(since: int, writes: nat)
    | Handled(answer: Answer)
    | Waiting
    | Replaying(answer: Answer)
    | Alone

  /** A request under way, with the revision it read first. */
  datatype Serving = Serving(revision: Name, request: Request, phase: Phase)

  /** The region: its data, how often it was written, the current revision while
      the latest status is success, and every revision ever current. */
  datatype Region = Region(data: Data, writes: nat, current: Option<Name>, used: set<Name>)

  /** flight: the request running the handler for each key under way. */
  datatype State = State(now: int, region: Region, store: map<string, Stored>, servings: map<nat, Serving>,
                         flight: map<string, nat>)

  datatype Step =
    | Tick(to: int)
    | SyncStarts
    | SyncWrites(data: Data)
    | SyncSucceeds(revision: Name)
    | Look(id: nat, request: Request)
    | Hit(id: nat)
    | HandlerStarts(id: nat)
    | HandlerEnds(id: nat, answer: Answer)
    | Keep(id: nat)
    | Wait(id: nat)
    | Replay(id: nat)
    | RunAlone(id: nat)
    | Evict(key: string)

  predicate LookedUp(s: State, id: nat) {
    id in s.servings && s.servings[id].phase.Looked?
  }

  predicate HandlerDone(s: State, id: nat) {
    id in s.servings && s.servings[id].phase.Handled?
  }

  function KeyOf(w: World, serving: Serving): string {
    w.key(serving.revision, serving.request)
  }

  /** The stored response a request finds, unless it has expired. */
  predicate Finds(w: World, s: State, id: nat) {
    LookedUp(s, id) &&
    var key := KeyOf(w, s.servings[id]);
    key in s.store && s.now < s.store[key].expires && DecodeEntry(w.codec, s.store[key].raw).Some?
  }

  /** The response of a hit. */
  function HitResponse(w: World, s: State, id: nat): Entry
    requires Finds(w, s, id)
  {
    DecodeEntry(w.codec, s.store[KeyOf(w, s.servings[id])].raw).value
  }

  /** A handler run that no data write cut into computes its answer from the
      data at one moment of the run. */
  predicate Ran(w: World, s: State, id: nat, answer: Answer) {
    id in s.servings && s.servings[id].phase.Handling? &&
    var serving := s.servings[id];
    serving.phase.since <= answer.ranAt <= s.now &&
    (serving.phase.writes == s.region.writes ==> Answers(w, s.region.data, serving.request, answer))
  }

  /** A request's answer on some data. */
  predicate Answers(w: World, data: Data, request: Request, answer: Answer) {
    answer.response == w.handle(data, request, answer.ranAt) && answer.until == w.changes(data, request, answer.ranAt)
  }

  predicate Enabled(w: World, s: State, step: Step) {
    match step
    case Tick(to) => s.now <= to
    case SyncStarts => true
    case SyncWrites(_) => s.region.current.None?
    case SyncSucceeds(revision) => revision !in s.region.used
    case Look(id, _) => id !in s.servings && s.region.current.Some?
    case Hit(id) => Finds(w, s, id)
    case HandlerStarts(id) => LookedUp(s, id) && KeyOf(w, s.servings[id]) !in s.flight
    case HandlerEnds(id, answer) => Ran(w, s, id, answer)
    case Keep(id) => HandlerDone(s, id)
    case Wait(id) => LookedUp(s, id) && KeyOf(w, s.servings[id]) in s.flight
    case Replay(id) => id in s.servings && s.servings[id].phase.Replaying?
    case RunAlone(id) => id in s.servings && s.servings[id].phase.Alone?
    case Evict(key) => key in s.store
  }

  function Moved(s: State, id: nat, phase: Phase): State
    requires id in s.servings
  {
    s.(servings := s.servings[id := s.servings[id].(phase := phase)])
  }

  /** What the requests waiting for a key wake up with. */
  function Woken(w: World, serving: Serving, key: string, answer: Answer): Serving {
    if serving.phase.Waiting? && KeyOf(w, serving) == key
    then serving.(phase := if w.Cacheable(answer.response) then Replaying(answer) else Alone)
    else serving
  }

  /** The end of fill: a cacheable response that lives long enough is stored, and
      whoever waits for the key is woken. */
  function Kept(w: World, s: State, id: nat): State
    requires HandlerDone(s, id)
  {
    var serving := s.servings[id];
    var key, answer, ttl := KeyOf(w, serving), serving.phase.answer, w.Ttl(s.now, serving.phase.answer.until);
    var done := s.(flight := s.flight - {key},
                   servings := map other | other in s.servings && other != id :: Woken(w, s.servings[other], key, answer));
    if !w.Cacheable(answer.response) || ttl < MIN_TTL then done
    else
      done.(store := s.store[key :=
        Stored(Encoded(w.codec, answer.response), s.now + ttl, serving.revision, serving.request, answer.ranAt)])
  }

  function Apply(w: World, s: State, step: Step): State
    requires Enabled(w, s, step)
  {
    match step
    case Tick(to) => s.(now := to)
    case SyncStarts => s.(region := s.region.(current := None))
    case SyncWrites(data) => s.(region := s.region.(data := data, writes := s.region.writes + 1))
    case SyncSucceeds(revision) =>
      s.(region := s.region.(current := Some(revision), used := s.region.used + {revision}))
    case Look(id, request) => s.(servings := s.servings[id := Serving(s.region.current.value, request, Looked)])
    case Hit(id) => s.(servings := s.servings - {id})
    case HandlerStarts(id) =>
      Moved(s, id, Handling(s.now, s.region.writes)).(flight := s.flight[KeyOf(w, s.servings[id]) := id])
    case HandlerEnds(id, answer) => Moved(s, id, Handled(answer))
    case Keep(id) => Kept(w, s, id)
    case Wait(id) => Moved(s, id, Waiting)
    case Replay(id) => s.(servings := s.servings - {id})
    case RunAlone(id) => s.(servings := s.servings - {id})
    case Evict(key) => s.(store := s.store - {key})
  }

  // ---------------------------------------------------------------- invariant

  /** A request whose revision is still current has seen no data write. */
  ghost predicate ServingRight(w: World, s: State, serving: Serving) {
    && serving.revision in s.region.used
    && (serving.phase.Handling? ==> serving.phase.since <= s.now)
    && (s.region.current == Some(serving.revision) ==>
          && (serving.phase.Handling? ==> serving.phase.writes == s.region.writes)
          && (serving.phase.Handled? || serving.phase.Replaying? ==>
                serving.phase.answer.ranAt <= s.now &&
                Answers(w, s.region.data, serving.request, serving.phase.answer)))
  }

  /** A response as it is read back from the store. */
  function AsStored(response: Entry): Entry {
    Entry(Stored16(response.status), Truncated(response.contentType), response.body)
  }

  /** A stored response whose revision is still current is what the handler
      computed on the current data, and expires before its answer may change. */
  ghost predicate StoredRight(w: World, s: State, key: string, stored: Stored) {
    && stored.revision in s.region.used && key == w.key(stored.revision, stored.request)
    && (s.region.current == Some(stored.revision) ==>
          var response := w.handle(s.region.data, stored.request, stored.ranAt);
          var until := w.changes(s.region.data, stored.request, stored.ranAt);
          && stored.ranAt <= s.now
          && DecodeEntry(w.codec, stored.raw) == Some(AsStored(response)) && response.status == 200
          && (until.Some? ==> stored.expires <= until.value))
  }

  predicate Leads(phase: Phase) {
    phase.Handling? || phase.Handled?
  }

  /** The flight names exactly the requests at work on their key, and whoever
      waits, waits for one of them. */
  predicate FlightRight(w: World, s: State) {
    && (forall key :: key in s.flight ==>
          && s.flight[key] in s.servings && Leads(s.servings[s.flight[key]].phase)
          && KeyOf(w, s.servings[s.flight[key]]) == key)
    && (forall id :: id in s.servings ==> InFlight(w, s, id))
  }

  predicate InFlight(w: World, s: State, id: nat)
    requires id in s.servings
  {
    var serving := s.servings[id];
    && (Leads(serving.phase) ==> KeyOf(w, serving) in s.flight && s.flight[KeyOf(w, serving)] == id)
    && (serving.phase.Waiting? ==> KeyOf(w, serving) in s.flight)
  }

  ghost predicate Invariant(w: World, s: State) {
    && FlightRight(w, s)
    && (s.region.current.Some? ==> s.region.current.value in s.region.used)
    && (forall id :: id in s.servings ==> ServingRight(w, s, s.servings[id]))
    && (forall key :: key in s.store ==> StoredRight(w, s, key, s.store[key]))
  }

  /** Time, syncs and evictions. */
  lemma WorldStepKeeps(w: World, s: State, step: Step)
    requires w.Valid() && Invariant(w, s) && Enabled(w, s, step)
    requires step.Tick? || step.SyncStarts? || step.SyncWrites? || step.SyncSucceeds? || step.Evict?
    ensures Invariant(w, Apply(w, s, step))
  {
    var after := Apply(w, s, step);
    FlightKept(w, s, step);
    forall id | id in after.servings ensures ServingRight(w, after, after.servings[id]) {
      assert ServingRight(w, s, s.servings[id]);
    }
    forall key | key in after.store ensures StoredRight(w, after, key, after.store[key]) {
      assert StoredRight(w, s, key, s.store[key]);
    }
  }

  lemma KeptRight(w: World, s: State, id: nat, key: string)
    requires w.Valid() && HandlerDone(s, id) && ServingRight(w, s, s.servings[id])
    requires key == KeyOf(w, s.servings[id])
    requires w.Cacheable(s.servings[id].phase.answer.response)
    ensures var serving, answer := s.servings[id], s.servings[id].phase.answer;
            var stored := Stored(Encoded(w.codec, answer.response), s.now + w.Ttl(s.now, answer.until),
                                 serving.revision, serving.request, answer.ranAt);
            StoredRight(w, s, key, stored)
  {
    DecodeEncoded(w.codec, s.servings[id].phase.answer.response);
  }

  /** Waiting requests share the leader's revision and request with its key. */
  lemma WokenRight(w: World, s: State, leader: Serving, serving: Serving)
    requires w.Valid() && leader.phase.Handled?
    requires ServingRight(w, s, leader) && ServingRight(w, s, serving)
    ensures ServingRight(w, s, Woken(w, serving, KeyOf(w, leader), leader.phase.answer))
  {
  }

  /** Finishing, waiting and leaving keep the flight right. */
  lemma FlightKept(w: World, s: State, step: Step)
    requires FlightRight(w, s) && Enabled(w, s, step)
    ensures FlightRight(w, Apply(w, s, step))
  {
    var after := Apply(w, s, step);
    forall id | id in after.servings ensures InFlight(w, after, id) {
      assert id in s.servings ==> InFlight(w, s, id);
    }
    forall key | key in after.flight
      ensures after.flight[key] in after.servings && Leads(after.servings[after.flight[key]].phase)
      ensures KeyOf(w, after.servings[after.flight[key]]) == key
    {
      assert key in s.flight || after.flight[key] in s.servings;
    }
  }

  lemma StoredElsewhere(w: World, s: State, after: State, key: string, stored: Stored)
    requires StoredRight(w, s, key, stored) && after.region == s.region && after.now == s.now
    ensures StoredRight(w, after, key, stored)
  {
  }

  /** Storing a response and waking whoever waits for it. */
  lemma KeepStepKeeps(w: World, s: State, id: nat)
    requires w.Valid() && Invariant(w, s) && HandlerDone(s, id)
    ensures Invariant(w, Kept(w, s, id))
  {
    var after := Kept(w, s, id);
    FlightKept(w, s, Keep(id));
    forall other | other in after.servings ensures ServingRight(w, after, after.servings[other]) {
      WokenRight(w, s, s.servings[id], s.servings[other]);
    }
    forall key | key in after.store ensures StoredRight(w, after, key, after.store[key]) {
      if key in s.store && after.store[key] == s.store[key] {
        StoredElsewhere(w, s, after, key, s.store[key]);
      } else {
        KeptRight(w, s, id, key);
        StoredElsewhere(w, s, after, key, after.store[key]);
      }
    }
  }

  /** Requests. */
  lemma RequestStepKeeps(w: World, s: State, step: Step)
    requires w.Valid() && Invariant(w, s) && Enabled(w, s, step)
    requires !step.Tick? && !step.SyncStarts? && !step.SyncWrites? && !step.SyncSucceeds? && !step.Evict?
    ensures Invariant(w, Apply(w, s, step))
  {
    if step.Keep? {
      KeepStepKeeps(w, s, step.id);
    } else {
      var after := Apply(w, s, step);
      FlightKept(w, s, step);
      assert after.region == s.region && after.now == s.now && after.store == s.store;
      if step.HandlerEnds? {
        assert ServingRight(w, s, s.servings[step.id]);
      }
      forall id | id in after.servings ensures ServingRight(w, after, after.servings[id]) {
        assert id in s.servings ==> ServingRight(w, s, s.servings[id]);
      }
      forall key | key in after.store ensures StoredRight(w, after, key, after.store[key]) {
        StoredElsewhere(w, s, after, key, s.store[key]);
      }
    }
  }

  lemma StepKeepsInvariant(w: World, s: State, step: Step)
    requires w.Valid() && Invariant(w, s) && Enabled(w, s, step)
    ensures Invariant(w, Apply(w, s, step))
  {
    if step.Tick? || step.SyncStarts? || step.SyncWrites? || step.SyncSucceeds? || step.Evict? {
      WorldStepKeeps(w, s, step);
    } else {
      RequestStepKeeps(w, s, step);
    }
  }

  // ---------------------------------------------------------------- runs

  /** Nothing stored, no request under way, no revision used yet. */
  predicate Initial(s: State) {
    s.store == map[] && s.servings == map[] && s.flight == map[] && s.region.current.None? && s.region.used == {}
  }

  ghost predicate Run(w: World, steps: seq<Step>, states: seq<State>) {
    && |states| == |steps| + 1 && Initial(states[0])
    && forall i :: 0 <= i < |steps| ==> Takes(w, steps, states, i)
  }

  ghost predicate Takes(w: World, steps: seq<Step>, states: seq<State>, i: nat)
    requires i < |steps| && |states| == |steps| + 1
  {
    Enabled(w, states[i], steps[i]) && states[i + 1] == Apply(w, states[i], steps[i])
  }

  lemma {:induction false} RunKeepsInvariant(w: World, steps: seq<Step>, states: seq<State>, i: nat)
    requires w.Valid() && Run(w, steps, states) && i < |states|
    ensures Invariant(w, states[i])
  {
    if i > 0 {
      RunKeepsInvariant(w, steps, states, i - 1);
      assert Takes(w, steps, states, i - 1);
      StepKeepsInvariant(w, states[i - 1], steps[i - 1]);
    }
  }

  /** Cache transparency: a hit returned while its revision is still the
      region's current one is what the handler would compute at that moment on
      the region's data, content types longer than 0xffff bytes aside, and is
      never served at or past the earliest reported moment of change. */
  lemma HitIsTransparent(w: World, steps: seq<Step>, states: seq<State>, i: nat)
    requires w.Valid() && Run(w, steps, states) && i < |steps| && steps[i].Hit?
    requires Finds(w, states[i], steps[i].id)
    requires states[i].region.current == Some(states[i].servings[steps[i].id].revision)
    ensures var request := states[i].servings[steps[i].id].request;
            var now := w.handle(states[i].region.data, request, states[i].now);
            HitResponse(w, states[i], steps[i].id) == AsStored(now) &&
            (|now.contentType| <= MAX_TYPE_LENGTH ==> HitResponse(w, states[i], steps[i].id) == now)
    ensures var serving := states[i].servings[steps[i].id];
            var stored := states[i].store[KeyOf(w, serving)];
            var until := w.changes(states[i].region.data, serving.request, stored.ranAt);
            stored.ranAt <= states[i].now && (until.Some? ==> states[i].now < until.value)
  {
    RunKeepsInvariant(w, steps, states, i);
    HitRight(w, states[i], steps[i].id);
  }

  lemma HitRight(w: World, s: State, id: nat)
    requires w.Valid() && Invariant(w, s) && Finds(w, s, id) && s.region.current == Some(s.servings[id].revision)
    ensures var now := w.handle(s.region.data, s.servings[id].request, s.now);
            HitResponse(w, s, id) == AsStored(now) &&
            (|now.contentType| <= MAX_TYPE_LENGTH ==> HitResponse(w, s, id) == now)
    ensures var stored := s.store[KeyOf(w, s.servings[id])];
            var until := w.changes(s.region.data, s.servings[id].request, stored.ranAt);
            stored.ranAt <= s.now && (until.Some? ==> s.now < until.value)
  {
    var serving := s.servings[id];
    var key := KeyOf(w, serving);
    var stored := s.store[key];
    assert StoredRight(w, s, key, stored);
    assert stored.revision == serving.revision && stored.request == serving.request;
    var before := w.handle(s.region.data, serving.request, stored.ranAt);
    var now := w.handle(s.region.data, serving.request, s.now);
    assert before == now;
    Uint16RoundTrip(now.status);
  }

  // ---------------------------------------------------------------- shared misses

  /** Concurrent misses share one handler run: in no interleaving are two
      requests with one key both at work on it, and a request that waits always
      waits for one that is. */
  lemma OneRunPerKey(w: World, steps: seq<Step>, states: seq<State>, i: nat, id: nat, other: nat)
    requires w.Valid() && Run(w, steps, states) && i < |states|
    requires id in states[i].servings && other in states[i].servings
    requires KeyOf(w, states[i].servings[id]) == KeyOf(w, states[i].servings[other])
    ensures Leads(states[i].servings[id].phase) && Leads(states[i].servings[other].phase) ==> id == other
    ensures states[i].servings[id].phase.Waiting? ==>
              exists leader :: leader in states[i].servings && Leads(states[i].servings[leader].phase) &&
                               states[i].servings[leader].revision == states[i].servings[id].revision &&
                               states[i].servings[leader].request == states[i].servings[id].request
  {
    var s := states[i];
    RunKeepsInvariant(w, steps, states, i);
    assert InFlight(w, s, id) && InFlight(w, s, other);
    if s.servings[id].phase.Waiting? {
      var leader := s.flight[KeyOf(w, s.servings[id])];
      assert KeyOf(w, s.servings[leader]) == KeyOf(w, s.servings[id]);
    }
  }

  /** A shared response, replayed while its request's revision is still current,
      is what the handler computed for that very request on the region's data, and
      what it would compute now unless a reported moment of change has passed. */
  lemma ReplayIsAnswer(w: World, steps: seq<Step>, states: seq<State>, i: nat)
    requires w.Valid() && Run(w, steps, states) && i < |steps| && steps[i].Replay? && Enabled(w, states[i], steps[i])
    requires states[i].region.current == Some(states[i].servings[steps[i].id].revision)
    ensures var s, serving := states[i], states[i].servings[steps[i].id];
            var answer := serving.phase.answer;
            && answer.ranAt <= s.now && Answers(w, s.region.data, serving.request, answer)
            && (answer.until.None? || s.now < answer.until.value ==>
                  answer.response == w.handle(s.region.data, serving.request, s.now))
  {
    RunKeepsInvariant(w, steps, states, i);
    assert ServingRight(w, states[i], states[i].servings[steps[i].id]);
  }

  // ---------------------------------------------------------------- what is kept

  /** How long a response stays: the cache's lifetime, or less if the handler
      reported an earlier change. */
  predicate WorthKeeping(w: World, now: int, answer: Answer) {
    && answer.response.status == 200 && |answer.response.body| <= w.maxEntryBytes
    && w.ttl >= 1_000_000_000 && (answer.until.Some? ==> answer.until.value - now >= 1_000_000_000)
  }

  /** A handler run that ends is stored under its request's key exactly when it is
      worth keeping, until the earlier of its lifetime's end and the reported
      change. */
  lemma KeepStores(w: World, steps: seq<Step>, states: seq<State>, i: nat)
    requires w.Valid() && Run(w, steps, states) && i < |steps| && steps[i].Keep?
    ensures HandlerDone(states[i], steps[i].id)
    ensures var s, after, serving := states[i], states[i + 1], states[i].servings[steps[i].id];
            var answer, key := serving.phase.answer, w.key(serving.revision, serving.request);
            && (WorthKeeping(w, s.now, answer) ==>
                  && key in after.store && DecodeEntry(w.codec, after.store[key].raw) == Some(AsStored(answer.response))
                  && after.store[key].expires
                       == if answer.until.Some? && answer.until.value < s.now + w.ttl then answer.until.value
                          else s.now + w.ttl)
            && (!WorthKeeping(w, s.now, answer) ==> after.store == s.store)
  {
    assert Takes(w, steps, states, i);
    var response := states[i].servings[steps[i].id].phase.answer.response;
    if |response.body| <= w.maxEntryBytes {
      DecodeEncoded(w.codec, response);
    }
  }

  /** It answers everyone who waits for the key, if it is cacheable, and sends them
      off alone if not; no other request is touched. */
  lemma KeepWakes(w: World, steps: seq<Step>, states: seq<State>, i: nat, id: nat)
    requires Run(w, steps, states) && i < |steps| && steps[i].Keep?
    requires id in states[i].servings && id != steps[i].id
    ensures HandlerDone(states[i], steps[i].id) && id in states[i + 1].servings
    ensures var done, before, after := states[i].servings[steps[i].id], states[i].servings[id], states[i + 1].servings[id];
            var response := done.phase.answer.response;
            && after.revision == before.revision && after.request == before.request
            && after.phase
                 == if before.phase.Waiting? && w.key(before.revision, before.request) == w.key(done.revision, done.request)
                    then if response.status == 200 && |response.body| <= w.maxEntryBytes then Replaying(done.phase.answer)
                         else Alone
                    else before.phase
  {
    assert Takes(w, steps, states, i);
  }

  lemma {:induction false} EntryStays(w: World, steps: seq<Step>, states: seq<State>, i: nat, j: nat, key: string)
    requires Run(w, steps, states) && i <= j < |states| && key in states[i].store
    requires forall k :: i <= k < j ==> !Replaces(w, states[k], steps[k], key)
    ensures key in states[j].store && states[j].store[key] == states[i].store[key]
    decreases j
  {
    if i < j {
      EntryStays(w, steps, states, i, j - 1, key);
      assert Takes(w, steps, states, j - 1);
      assert !Replaces(w, states[j - 1], steps[j - 1], key);
    }
  }

  /** Evicts an entry, or may store another under its key. */
  predicate Replaces(w: World, s: State, step: Step, key: string) {
    step == Evict(key) || (step.Keep? && HandlerDone(s, step.id) && KeyOf(w, s.servings[step.id]) == key)
  }

  /** What was kept is found: until it expires, is evicted or is stored again,
      every request for it that looks under the same revision is a hit with that
      response. */
  lemma KeptIsFound(w: World, steps: seq<Step>, states: seq<State>, i: nat, j: nat, id: nat)
    requires w.Valid() && Run(w, steps, states) && i < |steps| && steps[i].Keep? && i < j < |states|
    requires HandlerDone(states[i], steps[i].id)
    requires WorthKeeping(w, states[i].now, states[i].servings[steps[i].id].phase.answer)
    requires LookedUp(states[j], id)
    requires states[j].servings[id].revision == states[i].servings[steps[i].id].revision
    requires states[j].servings[id].request == states[i].servings[steps[i].id].request
    requires forall k :: i + 1 <= k < j ==> !Replaces(w, states[k], steps[k], KeyOf(w, states[i].servings[steps[i].id]))
    requires var answer := states[i].servings[steps[i].id].phase.answer;
             states[j].now < states[i].now + w.ttl && (answer.until.Some? ==> states[j].now < answer.until.value)
    ensures Finds(w, states[j], id) && Enabled(w, states[j], Hit(id))
    ensures var response := states[i].servings[steps[i].id].phase.answer.response;
            |response.contentType| <= 0xffff ==> HitResponse(w, states[j], id) == response
  {
    var key, response := KeyOf(w, states[i].servings[steps[i].id]), states[i].servings[steps[i].id].phase.answer.response;
    KeepStores(w, steps, states, i);
    EntryStays(w, steps, states, i + 1, j, key);
    FindsStored(w, states[j], id, key, response);
  }

  lemma FindsStored(w: World, s: State, id: nat, key: string, response: Entry)
    requires LookedUp(s, id) && KeyOf(w, s.servings[id]) == key && key in s.store && s.now < s.store[key].expires
    requires DecodeEntry(w.codec, s.store[key].raw) == Some(AsStored(response)) && response.status == 200
    ensures Finds(w, s, id) && Enabled(w, s, Hit(id))
    ensures |response.contentType| <= 0xffff ==> HitResponse(w, s, id) == response
  {
    StoredAsItIs(response);
  }

  lemma StoredAsItIs(response: Entry)
    requires response.status == 200
    ensures |response.contentType| <= 0xffff ==> AsStored(response) == response
  {
    Uint16RoundTrip(response.status);
  }

  /** What the world's steps do: the clock reads the later time, a sync that starts
      leaves the region without a revision, its writes are the region's data from
      then on, its success is the current revision, and what is evicted is gone. */
  lemma WorldStepsExact(w: World, steps: seq<Step>, states: seq<State>, i: nat)
    requires Run(w, steps, states) && i < |steps|
    ensures states[i + 1].now == if steps[i].Tick? then steps[i].to else states[i].now
    ensures states[i + 1].region.data == if steps[i].SyncWrites? then steps[i].data else states[i].region.data
    ensures states[i + 1].region.writes == states[i].region.writes + if steps[i].SyncWrites? then 1 else 0
    ensures states[i + 1].region.current
         == match steps[i] case SyncStarts => None case SyncSucceeds(revision) => Some(revision)
                           case _ => states[i].region.current
    ensures steps[i].Evict? ==> states[i + 1].store == states[i].store - {steps[i].key}
  {
    assert Takes(w, steps, states, i);
  }

  /** What a request's own steps do: it runs the handler from now on the data as it
      is, ends with its answer, waits, or leaves. */
  lemma RequestStepsExact(w: World, steps: seq<Step>, states: seq<State>, i: nat)
    requires Run(w, steps, states) && i < |steps|
    ensures match steps[i]
            case HandlerStarts(id) =>
              && id in states[i].servings && id in states[i + 1].servings
              && states[i + 1].servings[id] == states[i].servings[id].(phase := Handling(states[i].now, states[i].region.writes))
            case HandlerEnds(id, answer) =>
              && id in states[i].servings && id in states[i + 1].servings
              && states[i + 1].servings[id] == states[i].servings[id].(phase := Handled(answer))
            case Wait(id) =>
              && id in states[i].servings && id in states[i + 1].servings
              && states[i + 1].servings[id] == states[i].servings[id].(phase := Waiting)
            case Hit(id) => id !in states[i + 1].servings
            case Replay(id) => id !in states[i + 1].servings
            case RunAlone(id) => id !in states[i + 1].servings
            case Keep(id) => id !in states[i + 1].servings
            case _ => true
  {
    assert Takes(w, steps, states, i);
  }

  /** A request that looks takes the region's current revision, and no request is
      served from the cache while the region has none. */
  lemma LooksUnderCurrent(w: World, steps: seq<Step>, states: seq<State>, i: nat)
    requires Run(w, steps, states) && i < |steps| && steps[i].Look?
    ensures states[i].region.current.Some? && steps[i].id in states[i + 1].servings
    ensures states[i + 1].servings[steps[i].id] == Serving(states[i].region.current.value, steps[i].request, Looked)
  {
    assert Takes(w, steps, states, i);
  }

  // ---------------------------------------------------------------- progress

  /** A step of a request's own, or of the handler run for it. */
  predicate Serves(step: Step, id: nat) {
    match step
    case Hit(i) => i == id
    case HandlerStarts(i) => i == id
    case HandlerEnds(i, _) => i == id
    case Keep(i) => i == id
    case Wait(i) => i == id
    case Replay(i) => i == id
    case RunAlone(i) => i == id
    case _ => false
  }

  /** No request is stuck: it can take a step of its own, or it waits for one with
      the same revision and request that can. */
  lemma NobodyIsStuck(w: World, steps: seq<Step>, states: seq<State>, i: nat, id: nat)
    requires w.Valid() && Run(w, steps, states) && i < |states| && id in states[i].servings
    ensures exists other, step ::
              && other in states[i].servings && Serves(step, other) && Enabled(w, states[i], step)
              && (other == id || (states[i].servings[id].phase.Waiting? && Leads(states[i].servings[other].phase)))
  {
    var s := states[i];
    RunKeepsInvariant(w, steps, states, i);
    assert InFlight(w, s, id) && ServingRight(w, s, s.servings[id]);
    if s.servings[id].phase.Waiting? {
      assert ServingRight(w, s, s.servings[s.flight[KeyOf(w, s.servings[id])]]);
      LeaderCanStep(w, s, s.flight[KeyOf(w, s.servings[id])]);
    } else if Leads(s.servings[id].phase) {
      LeaderCanStep(w, s, id);
    } else {
      var step := match s.servings[id].phase
                  case Looked => if KeyOf(w, s.servings[id]) in s.flight then Wait(id) else HandlerStarts(id)
                  case Replaying(_) => Replay(id)
                  case _ => RunAlone(id);
      assert Serves(step, id) && Enabled(w, s, step);
    }
  }

  lemma LeaderCanStep(w: World, s: State, id: nat)
    requires id in s.servings && Leads(s.servings[id].phase)
    requires s.servings[id].phase.Handling? ==> s.servings[id].phase.since <= s.now
    ensures exists step :: Serves(step, id) && Enabled(w, s, step)
  {
    var request := s.servings[id].request;
    var answer := Answer(w.handle(s.region.data, request, s.now), w.changes(s.region.data, request, s.now), s.now);
    var step := if s.servings[id].phase.Handling? then HandlerEnds(id, answer) else Keep(id);
    assert Serves(step, id) && Enabled(w, s, step);
  }

  /** And the world is not held back: time passes, syncs start whenever, write while
      the region has no revision and succeed with any new one, entries are evicted,
      and requests look while there is a revision. */
  lemma WorldIsFree(w: World, s: State, to: int, data: Data, revision: Name, id: nat, request: Request)
    ensures s.now <= to ==> Enabled(w, s, Tick(to))
    ensures Enabled(w, s, SyncStarts)
    ensures s.region.current.None? ==> Enabled(w, s, SyncWrites(data))
    ensures revision !in s.region.used ==> Enabled(w, s, SyncSucceeds(revision))
    ensures id !in s.servings && s.region.current.Some? ==> Enabled(w, s, Look(id, request))
    ensures forall key :: key in s.store ==> Enabled(w, s, Evict(key))
  {
  }
}
