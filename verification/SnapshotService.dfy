/** The snapshot cache with request coalescing of `web/src/server/snapshot-service.ts`. */
module SnapshotCache {
  import opened Text

  /** A validated snapshot document. */
  type Snapshot = string

  datatype Cached = Cached(snapshot: Snapshot, collectedAt: real)

  datatype CacheState = Empty | Fresh | Expired

  /** What the promise of one collection came to. */
  datatype Outcome = Fulfilled(snapshot: Snapshot) | Rejected(error: string)

  /** The fields of the service; a promise is named by the number of its collection. */
  datatype Fields = Fields(cached: Option<Cached>, inFlight: Option<nat>)

  function StateOfCache(cached: Option<Cached>, ttl: real, now: real): CacheState {
    match cached
    case None => Empty
    case Some(c) =>
      var age := now - c.collectedAt;
      if age >= 0.0 && age < ttl then Fresh else Expired
  }

  /** How `getSnapshot` goes on after its first, synchronous part. */
  datatype Continuation = ReturnCached(cached: Cached) | AwaitShared(collection: nat) | AwaitOwn(collection: nat)

  function Begun(f: Fields, ttl: real, now: real, next: nat): Continuation {
    if f.cached.Some? && StateOfCache(f.cached, ttl, now) == Fresh then ReturnCached(f.cached.value)
    else if f.inFlight.Some? then AwaitShared(f.inFlight.value)
    else AwaitOwn(next)
  }

  function FieldsBegun(f: Fields, ttl: real, now: real, next: nat): Fields {
    if Begun(f, ttl, now, next).AwaitOwn? then f.(inFlight := Some(next)) else f
  }

  /** The fields once the caller that owns `collection` has resumed at time `now`. */
  function FieldsFinished(f: Fields, collection: nat, outcome: Outcome, now: real): Fields {
    Fields(
      match outcome
      case Fulfilled(snapshot) => Some(Cached(snapshot, now))
      case Rejected(_) => f.cached,
      if f.inFlight == Some(collection) then None else f.inFlight)
  }

  /** The two synchronous parts of `getSnapshot`, between which it awaits. */
  class SnapshotService {
    const cacheTtlMs: real
    var cached: Option<Cached>
    var inFlight: Option<nat>

    function State(): Fields
      reads this
    {
      Fields(cached, inFlight)
    }

    constructor (cacheTtlMs: real)
      ensures this.cacheTtlMs == cacheTtlMs && State() == Fields(None, None)
    {
      this.cacheTtlMs := cacheTtlMs;
      cached, inFlight := None, None;
    }

    method Status(now: real) returns (cache: CacheState, collectionInFlight: bool)
      ensures cache == StateOfCache(cached, cacheTtlMs, now) && collectionInFlight == inFlight.Some?
    {
      cache := Empty;
      if cached.Some? {
        var age := now - cached.value.collectedAt;
        cache := if age >= 0.0 && age < cacheTtlMs then Fresh else Expired;
      }
      collectionInFlight := inFlight.Some?;
    }

    /** Up to the first await. `next` names the promise that `collect()` would return. */
    method Begin(now: real, next: nat) returns (c: Continuation)
      modifies this
      ensures c == Begun(old(State()), cacheTtlMs, now, next)
      ensures State() == FieldsBegun(old(State()), cacheTtlMs, now, next)
    {
      var cache, _ := Status(now);
      if cache == Fresh && cached.Some? {
        return ReturnCached(cached.value);
      }
      if inFlight.Some? {
        return AwaitShared(inFlight.value);
      }
      inFlight := Some(next);
      return AwaitOwn(next);
    }

    /** After the owner's await: store a success, then the `finally` block. */
    method Finish(collection: nat, outcome: Outcome, now: real)
      modifies this
      ensures State() == FieldsFinished(old(State()), collection, outcome, now)
    {
      if outcome.Fulfilled? {
        cached := Some(Cached(outcome.snapshot, now));
      }
      if inFlight == Some(collection) {
        inFlight := None;
      }
    }
  }

  // ----- All interleavings -----------------------------------------------------------------

  /** One call of `collect()`: when it began, what its promise came to, and when its owner resumed. */
  datatype Collection = Collection(startedAt: real, outcome: Option<Outcome>, finished: Option<Finish>)

  datatype Finish = Finish(at: real, step: nat)

  datatype Phase =
    | Owning(collection: nat)
    | Joined(collection: nat)
    | AnsweredFromCache(cached: Cached)
    | Answered(collection: nat, outcome: Outcome)

  datatype Caller = Caller(askedAt: real, askedStep: nat, phase: Phase)

  /** The service, its callers and its collections; `clock` is the last reading and `steps` counts the events. */
  datatype System = System(fields: Fields, callers: seq<Caller>, collections: seq<Collection>, clock: real, steps: nat)

  /** A request arrives, a promise settles, its owner resumes, or a caller that joined it does. */
  datatype Event =
    | Request(now: real)
    | Settle(collection: nat, outcome: Outcome)
    | ResumeOwner(caller: nat, now: real)
    | ResumeJoined(caller: nat)

  predicate Settled(s: System, collection: nat) {
    collection < |s.collections| && s.collections[collection].outcome.Some?
  }

  /** The scheduler may choose this event: nothing settles twice, and only a settled promise resumes its callers. */
  predicate Enabled(s: System, e: Event) {
    match e
    case Request(_) => true
    case Settle(p, _) => p < |s.collections| && s.collections[p].outcome.None?
    case ResumeOwner(c, _) =>
      c < |s.callers| && s.callers[c].phase.Owning? && Settled(s, s.callers[c].phase.collection)
    case ResumeJoined(c) =>
      c < |s.callers| && s.callers[c].phase.Joined? && Settled(s, s.callers[c].phase.collection)
  }

  function PhaseOf(c: Continuation): Phase {
    match c
    case ReturnCached(cached) => AnsweredFromCache(cached)
    case AwaitShared(p) => Joined(p)
    case AwaitOwn(p) => Owning(p)
  }

  function Step(s: System, ttl: real, e: Event): System
    requires Enabled(s, e)
  {
    match e
    case Request(now) =>
      var next := |s.collections|;
      var c := Begun(s.fields, ttl, now, next);
      s.(fields := FieldsBegun(s.fields, ttl, now, next),
         callers := s.callers + [Caller(now, s.steps, PhaseOf(c))],
         collections := s.collections + if c.AwaitOwn? then [Collection(now, None, None)] else [],
         clock := now, steps := s.steps + 1)
    case Settle(p, outcome) =>
      s.(collections := s.collections[p := s.collections[p].(outcome := Some(outcome))], steps := s.steps + 1)
    case ResumeOwner(c, now) =>
      var p := s.callers[c].phase.collection;
      var outcome := s.collections[p].outcome.value;
      s.(fields := FieldsFinished(s.fields, p, outcome, now),
         callers := s.callers[c := s.callers[c].(phase := Answered(p, outcome))],
         collections := s.collections[p := s.collections[p].(finished := Some(Finish(now, s.steps)))],
         clock := now, steps := s.steps + 1)
    case ResumeJoined(c) =>
      var p := s.callers[c].phase.collection;
      s.(callers := s.callers[c := s.callers[c].(phase := Answered(p, s.collections[p].outcome.value))],
         steps := s.steps + 1)
  }

  function Initial(start: real): System {
    System(Fields(None, None), [], [], start, 0)
  }

  /** Each event is enabled when it happens. */
  predicate IsRun(ttl: real, start: real, run: seq<Event>)
    decreases |run|, 0
  {
    run == [] ||
    (IsRun(ttl, start, run[..|run| - 1]) && Enabled(After(ttl, start, run[..|run| - 1]), run[|run| - 1]))
  }

  function After(ttl: real, start: real, run: seq<Event>): System
    requires IsRun(ttl, start, run)
    decreases |run|, 1
  {
    if run == [] then Initial(start)
    else Step(After(ttl, start, run[..|run| - 1]), ttl, run[|run| - 1])
  }

  // ----- Single flight ----------------------------------------------------------------------

  predicate Finished(c: Collection) {
    c.finished.Some? && c.outcome.Some?
  }

  /** Only the collection in flight is unfinished. */
  predicate OthersFinished(s: System) {
    forall p :: 0 <= p < |s.collections| && Some(p) != s.fields.inFlight ==> Finished(s.collections[p])
  }

  predicate FlightIsOpen(s: System) {
    s.fields.inFlight.Some? ==>
      s.fields.inFlight.value < |s.collections| && s.collections[s.fields.inFlight.value].finished.None?
  }

  /** What a caller awaits exists, and an owner owns the collection in flight. */
  predicate CallerAwaits(s: System, c: Caller) {
    match c.phase
    case Owning(p) => s.fields.inFlight == Some(p)
    case Joined(p) => p < |s.collections|
    case AnsweredFromCache(_) => true
    case Answered(p, outcome) => p < |s.collections| && s.collections[p].outcome == Some(outcome)
  }

  predicate CallersAwait(s: System) {
    forall c :: 0 <= c < |s.callers| ==> CallerAwaits(s, s.callers[c])
  }

  predicate OneOwner(s: System) {
    forall c, d :: 0 <= c < d < |s.callers| ==> !(s.callers[c].phase.Owning? && s.callers[d].phase.Owning?)
  }

  predicate SingleFlight(s: System) {
    OthersFinished(s) && FlightIsOpen(s) && CallersAwait(s) && OneOwner(s)
  }

  lemma SingleFlightKept(s: System, ttl: real, e: Event)
    requires SingleFlight(s) && Enabled(s, e)
    ensures SingleFlight(Step(s, ttl, e))
  {
    var t := Step(s, ttl, e);
    match e {
      case Request(now) =>
        if Begun(s.fields, ttl, now, |s.collections|).AwaitOwn? {
          forall c | 0 <= c < |s.callers| ensures !s.callers[c].phase.Owning? {
            assert CallerAwaits(s, s.callers[c]);
          }
        }
        forall c | 0 <= c < |t.callers| ensures CallerAwaits(t, t.callers[c]) {
          if c < |s.callers| {
            assert CallerAwaits(s, s.callers[c]);
          }
        }
      case Settle(p, outcome) =>
        forall c | 0 <= c < |t.callers| ensures CallerAwaits(t, t.callers[c]) {
          assert CallerAwaits(s, s.callers[c]);
        }
      case ResumeOwner(c, now) =>
        forall d | 0 <= d < |t.callers| ensures CallerAwaits(t, t.callers[d]) {
          assert CallerAwaits(s, s.callers[d]);
          assert CallerAwaits(s, s.callers[c]);
        }
      case ResumeJoined(c) =>
        forall d | 0 <= d < |t.callers| ensures CallerAwaits(t, t.callers[d]) {
          assert CallerAwaits(s, s.callers[d]);
        }
    }
  }

  /** In every interleaving at most the collection in flight is unfinished, and at most one caller owns it. */
  lemma {:induction false} SingleFlightAlways(ttl: real, start: real, run: seq<Event>)
    requires IsRun(ttl, start, run)
    ensures SingleFlight(After(ttl, start, run))
  {
    if run != [] {
      SingleFlightAlways(ttl, start, run[..|run| - 1]);
      SingleFlightKept(After(ttl, start, run[..|run| - 1]), ttl, run[|run| - 1]);
    }
  }

  /**
   When an owner resumes, the promise in flight is its own: the guard of the `finally` block never fails, and the
   cache changes, on success only, in the step that clears the slot.
   */
  lemma OwnerFindsItsPromise(ttl: real, start: real, run: seq<Event>, caller: nat, now: real)
    requires IsRun(ttl, start, run) && Enabled(After(ttl, start, run), ResumeOwner(caller, now))
    ensures var s := After(ttl, start, run);
            var own := s.callers[caller].phase.collection;
            && s.fields.inFlight == Some(own)
            && Step(s, ttl, ResumeOwner(caller, now)).fields ==
               match s.collections[own].outcome.value
               case Fulfilled(snapshot) => Fields(Some(Cached(snapshot, now)), None)
               case Rejected(_) => Fields(s.fields.cached, None)
  {
    SingleFlightAlways(ttl, start, run);
    var s := After(ttl, start, run);
    assert CallerAwaits(s, s.callers[caller]);
  }

  /** The collection a caller still waits for, or has been answered from. */
  function AwaitedBy(phase: Phase): Option<nat> {
    match phase
    case AnsweredFromCache(_) => None
    case _ => Some(phase.collection)
  }

  /** A caller stays with its collection, an answer stays, and what a promise came to stays. */
  predicate GoesOn(s: System, t: System) {
    && |s.callers| <= |t.callers| && |s.collections| <= |t.collections|
    && (forall c :: 0 <= c < |s.callers| ==>
          && AwaitedBy(t.callers[c].phase) == AwaitedBy(s.callers[c].phase)
          && (s.callers[c].phase.Answered? ==> t.callers[c].phase == s.callers[c].phase))
    && (forall p :: 0 <= p < |s.collections| && s.collections[p].outcome.Some? ==>
          t.collections[p].outcome == s.collections[p].outcome)
  }

  lemma StepGoesOn(s: System, ttl: real, e: Event)
    requires Enabled(s, e)
    ensures GoesOn(s, Step(s, ttl, e))
  {
  }

  lemma GoesOnOn(s: System, t: System, u: System)
    requires GoesOn(s, t) && GoesOn(t, u)
    ensures GoesOn(s, u)
  {
  }

  lemma {:induction false} RunGoesOn(ttl: real, start: real, run: seq<Event>, more: seq<Event>)
    requires IsRun(ttl, start, run + more)
    ensures IsRun(ttl, start, run) && GoesOn(After(ttl, start, run), After(ttl, start, run + more))
  {
    if more == [] {
      assert run + more == run;
    } else {
      var init, last := more[..|more| - 1], more[|more| - 1];
      assert (run + more)[..|run + more| - 1] == run + init && (run + more)[|run + more| - 1] == last;
      RunGoesOn(ttl, start, run, init);
      StepGoesOn(After(ttl, start, run + init), ttl, last);
      GoesOnOn(After(ttl, start, run), After(ttl, start, run + init), After(ttl, start, run + more));
    }
  }

  /**
   Once the promise of a collection has come to something, a failure say, that is what every caller that waits for it,
   the owner or one that joined, will be answered with, however the run goes on; and nobody is kept from resuming.
   */
  lemma FailureReachesEveryCaller(ttl: real, start: real, run: seq<Event>, more: seq<Event>, p: nat, outcome: Outcome, c: nat)
    requires IsRun(ttl, start, run + more) && IsRun(ttl, start, run)
    requires p < |After(ttl, start, run).collections| && After(ttl, start, run).collections[p].outcome == Some(outcome)
    requires c < |After(ttl, start, run).callers| && AwaitedBy(After(ttl, start, run).callers[c].phase) == Some(p)
    ensures var t := After(ttl, start, run + more);
            && c < |t.callers|
            && match t.callers[c].phase
               case Answered(q, o) => q == p && o == outcome
               case Joined(q) => q == p && Enabled(t, ResumeJoined(c))
               case Owning(q) => q == p && forall now :: Enabled(t, ResumeOwner(c, now))
               case AnsweredFromCache(_) => false
  {
    RunGoesOn(ttl, start, run, more);
    SingleFlightAlways(ttl, start, run + more);
    var t := After(ttl, start, run + more);
    assert CallerAwaits(t, t.callers[c]);
  }

  // ----- Provenance ----------------------------------------------------------------------------

  predicate Succeeded(c: Collection) {
    Finished(c) && c.outcome.value.Fulfilled?
  }

  /** The cached value is what some successful collection brought, at the time its owner resumed. */
  predicate CameFrom(cached: Cached, c: Collection) {
    Succeeded(c) && c.outcome.value.snapshot == cached.snapshot && c.finished.value.at == cached.collectedAt
  }

  predicate HasOrigin(s: System, cached: Cached) {
    exists p :: 0 <= p < |s.collections| && CameFrom(cached, s.collections[p])
  }

  /** The collection a caller waits for or was answered by had not finished when the caller asked. */
  predicate AskedBefore(s: System, askedStep: nat, p: nat) {
    p < |s.collections| && (s.collections[p].finished.Some? ==> askedStep < s.collections[p].finished.value.step)
  }

  predicate CallerIsServedRightly(s: System, ttl: real, c: Caller) {
    && c.askedStep < s.steps
    && match c.phase
       case AnsweredFromCache(cached) => HasOrigin(s, cached) && 0.0 <= c.askedAt - cached.collectedAt < ttl
       case Answered(p, _) => AskedBefore(s, c.askedStep, p)
       case Owning(p) => AskedBefore(s, c.askedStep, p)
       case Joined(p) => AskedBefore(s, c.askedStep, p)
  }

  predicate Provenance(s: System, ttl: real) {
    && (s.fields.cached.Some? ==> HasOrigin(s, s.fields.cached.value))
    && (forall c :: 0 <= c < |s.callers| ==> CallerIsServedRightly(s, ttl, s.callers[c]))
  }

  lemma OriginKept(s: System, ttl: real, e: Event, cached: Cached)
    requires SingleFlight(s) && Enabled(s, e) && HasOrigin(s, cached)
    ensures HasOrigin(Step(s, ttl, e), cached)
  {
    var p :| 0 <= p < |s.collections| && CameFrom(cached, s.collections[p]);
    var t := Step(s, ttl, e);
    if e.ResumeOwner? {
      assert CallerAwaits(s, s.callers[e.caller]);
    }
    assert t.collections[p] == s.collections[p];
  }

  lemma AskedBeforeKept(s: System, ttl: real, e: Event, askedStep: nat, p: nat)
    requires Enabled(s, e) && AskedBefore(s, askedStep, p) && askedStep < s.steps
    ensures AskedBefore(Step(s, ttl, e), askedStep, p)
  {
  }

  lemma CallerStaysServedRightly(s: System, ttl: real, e: Event, c: Caller)
    requires SingleFlight(s) && Enabled(s, e) && CallerIsServedRightly(s, ttl, c)
    ensures CallerIsServedRightly(Step(s, ttl, e), ttl, c)
  {
    match c.phase {
      case AnsweredFromCache(cached) => OriginKept(s, ttl, e, cached);
      case Answered(p, _) => AskedBeforeKept(s, ttl, e, c.askedStep, p);
      case Owning(p) => AskedBeforeKept(s, ttl, e, c.askedStep, p);
      case Joined(p) => AskedBeforeKept(s, ttl, e, c.askedStep, p);
    }
  }

  lemma ProvenanceKept(s: System, ttl: real, e: Event)
    requires SingleFlight(s) && Provenance(s, ttl) && Enabled(s, e)
    ensures Provenance(Step(s, ttl, e), ttl)
  {
    var t := Step(s, ttl, e);
    if s.fields.cached.Some? {
      OriginKept(s, ttl, e, s.fields.cached.value);
    }
    forall c | 0 <= c < |s.callers| ensures CallerIsServedRightly(t, ttl, s.callers[c]) {
      CallerStaysServedRightly(s, ttl, e, s.callers[c]);
    }
    match e {
      case Request(now) =>
        assert FlightIsOpen(s);
      case Settle(_, _) =>
      case ResumeOwner(c, now) =>
        var p := s.callers[c].phase.collection;
        assert CallerAwaits(s, s.callers[c]);
        assert s.collections[p].outcome.value.Fulfilled? ==> CameFrom(t.fields.cached.value, t.collections[p]);
        assert CallerIsServedRightly(t, ttl, s.callers[c]);
      case ResumeJoined(c) =>
        assert CallerIsServedRightly(t, ttl, s.callers[c]);
    }
  }

  /** In every interleaving, cached answers are younger than the ttl and fresh ones were finished after they were asked for. */
  lemma {:induction false} ProvenanceAlways(ttl: real, start: real, run: seq<Event>)
    requires IsRun(ttl, start, run)
    ensures Provenance(After(ttl, start, run), ttl)
  {
    if run != [] {
      SingleFlightAlways(ttl, start, run[..|run| - 1]);
      ProvenanceAlways(ttl, start, run[..|run| - 1]);
      ProvenanceKept(After(ttl, start, run[..|run| - 1]), ttl, run[|run| - 1]);
    }
  }

  // ----- What the status says -----------------------------------------------------------------

  predicate NoneSucceeded(cs: seq<Collection>, from: nat) {
    forall p :: from <= p < |cs| ==> !Succeeded(cs[p])
  }

  /** The cache holds the latest success, and a collection in flight is the latest of all. */
  predicate LatestIsCached(s: System) {
    && (s.fields.inFlight.Some? ==> s.fields.inFlight.value == |s.collections| - 1)
    && (s.fields.cached.None? ==> NoneSucceeded(s.collections, 0))
    && (s.fields.cached.Some? ==>
          exists p :: 0 <= p < |s.collections| && CameFrom(s.fields.cached.value, s.collections[p])
                      && NoneSucceeded(s.collections, p + 1))
  }

  lemma LatestIsCachedKept(s: System, ttl: real, e: Event)
    requires SingleFlight(s) && LatestIsCached(s) && Enabled(s, e)
    ensures LatestIsCached(Step(s, ttl, e))
  {
    var t := Step(s, ttl, e);
    if e.ResumeOwner? {
      assert CallerAwaits(s, s.callers[e.caller]);
      var own := s.callers[e.caller].phase.collection;
      if t.fields.cached != s.fields.cached || s.collections[own].outcome.value.Fulfilled? {
        assert CameFrom(t.fields.cached.value, t.collections[own]) && NoneSucceeded(t.collections, own + 1);
      } else {
        assert forall p :: 0 <= p < |s.collections| && p != own ==> t.collections[p] == s.collections[p];
        assert !Succeeded(t.collections[own]) && !Succeeded(s.collections[own]);
      }
    } else {
      assert forall p :: 0 <= p < |s.collections| ==> (Succeeded(t.collections[p]) <==> Succeeded(s.collections[p]));
      assert forall p :: 0 <= p < |s.collections| && Succeeded(s.collections[p]) ==> t.collections[p] == s.collections[p];
      assert forall p :: |s.collections| <= p < |t.collections| ==> !Succeeded(t.collections[p]);
    }
  }

  lemma {:induction false} LatestIsCachedAlways(ttl: real, start: real, run: seq<Event>)
    requires IsRun(ttl, start, run)
    ensures LatestIsCached(After(ttl, start, run))
  {
    if run != [] {
      var before := run[..|run| - 1];
      LatestIsCachedAlways(ttl, start, before);
      SingleFlightAlways(ttl, start, before);
      LatestIsCachedKept(After(ttl, start, before), ttl, run[|run| - 1]);
    }
  }

  predicate IsLatestSuccess(cs: seq<Collection>, p: nat) {
    p < |cs| && Succeeded(cs[p]) && NoneSucceeded(cs, p + 1)
  }

  lemma LatestSuccessIsOne(cs: seq<Collection>, p: nat, q: nat)
    requires IsLatestSuccess(cs, p) && IsLatestSuccess(cs, q)
    ensures p == q
  {
  }

  lemma StatusOfTheLatest(s: System, ttl: real, now: real, p: nat)
    requires LatestIsCached(s) && IsLatestSuccess(s.collections, p)
    ensures s.fields.cached.Some? && s.fields.cached.value.collectedAt == s.collections[p].finished.value.at
  {
    var q :| 0 <= q < |s.collections| && CameFrom(s.fields.cached.value, s.collections[q]) && NoneSucceeded(s.collections, q + 1);
    LatestSuccessIsOne(s.collections, p, q);
  }

  /**
   In every run the status says whether any collection has succeeded yet, and whether the latest success is at most
   the ttl old and not from the future.
   */
  lemma StatusTellsTheLatestSuccess(ttl: real, start: real, run: seq<Event>, now: real)
    requires IsRun(ttl, start, run)
    ensures var (cs, status) := (After(ttl, start, run).collections, StateOfCache(After(ttl, start, run).fields.cached, ttl, now));
            && (status == Empty <==> NoneSucceeded(cs, 0))
            && forall p: nat :: IsLatestSuccess(cs, p) ==> (status == Fresh <==> 0.0 <= now - cs[p].finished.value.at < ttl)
  {
    LatestIsCachedAlways(ttl, start, run);
    var s := After(ttl, start, run);
    forall p: nat | IsLatestSuccess(s.collections, p)
      ensures s.fields.cached.Some? && s.fields.cached.value.collectedAt == s.collections[p].finished.value.at
    {
      StatusOfTheLatest(s, ttl, now, p);
    }
  }

  // ----- Spacing --------------------------------------------------------------------------------

  /** The clock does not go back at this event. */
  predicate OnTime(s: System, e: Event) {
    match e
    case Request(now) => now >= s.clock
    case ResumeOwner(_, now) => now >= s.clock
    case _ => true
  }

  predicate IsTimedRun(ttl: real, start: real, run: seq<Event>) {
    && IsRun(ttl, start, run)
    && (run == [] || (IsTimedRun(ttl, start, run[..|run| - 1])
                      && OnTime(After(ttl, start, run[..|run| - 1]), run[|run| - 1])))
  }

  /** A collection starts no sooner than `ttl` after any earlier success finished, and ends no sooner than it starts. */
  predicate Spaced(cs: seq<Collection>, ttl: real) {
    && (forall p :: 0 <= p < |cs| && Finished(cs[p]) ==> cs[p].startedAt <= cs[p].finished.value.at)
    && (forall p, q :: 0 <= p < q < |cs| && Succeeded(cs[p]) ==> cs[q].startedAt >= cs[p].finished.value.at + ttl)
  }

  predicate Timely(s: System, ttl: real) {
    && Spaced(s.collections, ttl)
    && (forall p :: 0 <= p < |s.collections| ==> s.collections[p].startedAt <= s.clock)
    && (s.fields.inFlight.Some? ==> s.fields.inFlight.value == |s.collections| - 1)
    && (s.fields.cached.Some? ==> s.fields.cached.value.collectedAt <= s.clock)
    && (forall p :: 0 <= p < |s.collections| && Succeeded(s.collections[p]) ==>
          s.fields.cached.Some? && s.collections[p].finished.value.at <= s.fields.cached.value.collectedAt)
  }

  lemma TimelyKept(s: System, ttl: real, e: Event)
    requires SingleFlight(s) && Timely(s, ttl) && Enabled(s, e) && OnTime(s, e)
    ensures Timely(Step(s, ttl, e), ttl)
  {
    var t := Step(s, ttl, e);
    match e {
      case Request(now) =>
        forall p | 0 <= p < |s.collections| ensures t.collections[p] == s.collections[p] {}
      case Settle(p, outcome) =>
        assert s.collections[p].outcome.None?;
        assert Some(p) == s.fields.inFlight;
        forall q | 0 <= q < |s.collections| && q != p ensures t.collections[q] == s.collections[q] {}
      case ResumeOwner(c, now) =>
        assert CallerAwaits(s, s.callers[c]);
        var p := s.callers[c].phase.collection;
        forall q | 0 <= q < |s.collections| && q != p ensures t.collections[q] == s.collections[q] {}
      case ResumeJoined(c) =>
    }
  }

  lemma {:induction false} TimelyAlways(ttl: real, start: real, run: seq<Event>)
    requires IsTimedRun(ttl, start, run)
    ensures Timely(After(ttl, start, run), ttl)
  {
    if run != [] {
      SingleFlightAlways(ttl, start, run[..|run| - 1]);
      TimelyAlways(ttl, start, run[..|run| - 1]);
      TimelyKept(After(ttl, start, run[..|run| - 1]), ttl, run[|run| - 1]);
    }
  }

  /** A success whose owner resumed within `[from, to]`. */
  predicate SucceededIn(c: Collection, from: real, to: real) {
    Succeeded(c) && from <= c.finished.value.at <= to
  }

  function SuccessesIn(cs: seq<Collection>, from: real, to: real): nat {
    if cs == [] then 0
    else SuccessesIn(cs[..|cs| - 1], from, to) + if SucceededIn(cs[|cs| - 1], from, to) then 1 else 0
  }

  /** `n` times `ttl`. */
  function Times(n: nat, ttl: real): real {
    if n == 0 then 0.0 else Times(n - 1, ttl) + ttl
  }

  lemma {:induction false} TimesIsProduct(n: nat, ttl: real)
    ensures Times(n, ttl) == n as real * ttl
  {
    if n > 0 {
      var m := (n - 1) as real;
      TimesIsProduct(n - 1, ttl);
      assert n as real == m + 1.0;
      assert (m + 1.0) * ttl == m * ttl + ttl;
    }
  }

  lemma WholeTtlsWithin(n: nat, ttl: real, width: real)
    requires ttl > 0.0 && Times(n, ttl) <= width
    ensures n <= (width / ttl).Floor
  {
    var m, window := n as real, width / ttl;
    TimesIsProduct(n, ttl);
    assert window * ttl == width;
    if m > window {
      assert (m - window) * ttl > 0.0;
      assert (m - window) * ttl == m * ttl - window * ttl;
    }
  }

  lemma {:induction false} LastSuccessIsLate(cs: seq<Collection>, ttl: real, from: real, to: real) returns (last: nat)
    requires Spaced(cs, ttl) && SuccessesIn(cs, from, to) > 0
    ensures last < |cs| && SucceededIn(cs[last], from, to)
    ensures from + Times(SuccessesIn(cs, from, to) - 1, ttl) <= cs[last].finished.value.at
  {
    var init, x := cs[..|cs| - 1], cs[|cs| - 1];
    if SuccessesIn(init, from, to) == 0 {
      last := |cs| - 1;
    } else {
      last := LastSuccessIsLate(init, ttl, from, to);
      if SucceededIn(x, from, to) {
        assert x.startedAt >= init[last].finished.value.at + ttl;
        last := |cs| - 1;
      }
    }
  }

  lemma SpacedIsRateLimited(cs: seq<Collection>, ttl: real, from: real, to: real)
    requires ttl > 0.0 && from <= to && Spaced(cs, ttl)
    ensures SuccessesIn(cs, from, to) <= ((to - from) / ttl).Floor + 1
  {
    var n := SuccessesIn(cs, from, to);
    if n > 0 {
      var last := LastSuccessIsLate(cs, ttl, from, to);
      WholeTtlsWithin(n - 1, ttl, to - from);
    } else {
      WholeTtlsWithin(0, ttl, to - from);
    }
  }

  /** With a clock that never goes back, a closed window of length W holds at most floor(W / ttl) + 1 successes. */
  lemma SuccessesAreRateLimited(ttl: real, start: real, run: seq<Event>, from: real, to: real)
    requires ttl > 0.0 && from <= to && IsTimedRun(ttl, start, run)
    ensures SuccessesIn(After(ttl, start, run).collections, from, to) <= ((to - from) / ttl).Floor + 1
  {
    TimelyAlways(ttl, start, run);
    SpacedIsRateLimited(After(ttl, start, run).collections, ttl, from, to);
  }
}
