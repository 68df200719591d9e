/** The three-state breaker of pkg/fault/circuit_breaker.go. */
module Breaker {
  type Time = int // nanoseconds

  datatype State = Closed | Open | HalfOpen

  /** FailureRatio is the rational ratioNum / ratioDen, ratioDen > 0. */
  datatype Config = Config(maxFailures: int, timeout: Time, ratioNum: int, ratioDen: int, halfOpenMax: int)

  datatype Counters = Counters(state: State, failures: int, successes: int, attempts: int, stateChanged: Time)

  datatype Op = Allow | RecordSuccess | RecordFailure | Reset | ForceOpen | ForceClose

  /** The default that NewCircuitBreaker fills in. */
  function Normalize(c: Config): Config {
    if c.halfOpenMax == 0 then c.(halfOpenMax := 1) else c
  }

  function Fresh(now: Time): Counters {
    Counters(Closed, 0, 0, 0, now)
  }

  /** failures/attempts >= ratio, cross-multiplied. */
  predicate ShouldTrip(c: Config, failures: int, attempts: int) {
    failures >= c.maxFailures
    || (c.ratioNum > 0 && attempts > 0 && failures * c.ratioDen >= c.ratioNum * attempts)
  }

  predicate Admits(c: Config, b: Counters, now: Time) {
    match b.state
    case Closed => true
    case Open => now - b.stateChanged > c.timeout
    case HalfOpen => b.attempts < c.halfOpenMax
  }

  function After(c: Config, b: Counters, op: Op, now: Time): Counters {
    match op
    case Allow =>
      if b.state == Open && Admits(c, b, now) then b.(state := HalfOpen, stateChanged := now, attempts := 0) else b
    case RecordSuccess =>
      if b.state == HalfOpen then
        if b.successes + 1 >= c.halfOpenMax then Fresh(now) else b.(successes := b.successes + 1)
      else if b.state == Closed then b.(attempts := b.attempts + 1, failures := 0)
      else b
    case RecordFailure =>
      var counted := b.(failures := b.failures + 1, attempts := b.attempts + 1);
      if ShouldTrip(c, counted.failures, counted.attempts) then counted.(state := Open, stateChanged := now) else counted
    case Reset => Fresh(now)
    case ForceClose => Fresh(now)
    case ForceOpen => b.(state := Open, stateChanged := now)
  }

  class CircuitBreaker {
    const config: Config
    var state: State
    var failures: int
    var successes: int
    var attempts: int
    var lastFailureTime: Time
    var stateChanged: Time

    ghost function Abs(): Counters
      reads this
    {
      Counters(state, failures, successes, attempts, stateChanged)
    }

    constructor (config: Config, now: Time)
      ensures this.config == Normalize(config) && Abs() == Fresh(now)
    {
      this.config := if config.halfOpenMax == 0 then config.(halfOpenMax := 1) else config;
      state, stateChanged, lastFailureTime := Closed, now, 0;
      failures, successes, attempts := 0, 0, 0;
    }

    method SetState(newState: State, now: Time)
      modifies this
      ensures Abs() == old(Abs()).(state := newState, stateChanged := now)
      ensures lastFailureTime == old(lastFailureTime)
    {
      state := newState;
      stateChanged := now;
    }

    method ClearCounters()
      modifies this
      ensures Abs() == old(Abs()).(failures := 0, successes := 0, attempts := 0)
      ensures lastFailureTime == old(lastFailureTime)
    {
      failures := 0;
      successes := 0;
      attempts := 0;
    }

    method Allow(now: Time) returns (allowed: bool)
      modifies this
      ensures allowed == Admits(config, old(Abs()), now)
      ensures Abs() == After(config, old(Abs()), Op.Allow, now)
      ensures lastFailureTime == old(lastFailureTime)
    {
      match state
      case Closed => allowed := true;
      case Open =>
        if now - stateChanged > config.timeout {
          SetState(HalfOpen, now);
          attempts := 0;
          return true;
        }
        allowed := false;
      case HalfOpen => allowed := attempts < config.halfOpenMax;
    }

    method RecordSuccess(now: Time)
      modifies this
      ensures Abs() == After(config, old(Abs()), Op.RecordSuccess, now)
      ensures lastFailureTime == old(lastFailureTime)
    {
      if state == HalfOpen {
        successes := successes + 1;
        if successes >= config.halfOpenMax {
          SetState(Closed, now);
          ClearCounters();
        }
      } else if state == Closed {
        attempts := attempts + 1;
        failures := 0;
      }
    }

    method TripNow() returns (trip: bool)
      ensures trip == ShouldTrip(config, failures, attempts)
    {
      if failures >= config.maxFailures {
        return true;
      }
      if config.ratioNum > 0 && attempts > 0 {
        return failures * config.ratioDen >= config.ratioNum * attempts;
      }
      trip := false;
    }

    method RecordFailure(now: Time)
      modifies this
      ensures Abs() == After(config, old(Abs()), Op.RecordFailure, now)
      ensures lastFailureTime == now
    {
      failures := failures + 1;
      lastFailureTime := now;
      attempts := attempts + 1;
      var trip := TripNow();
      if trip {
        SetState(Open, now);
      }
    }

    method Reset(now: Time)
      modifies this
      ensures Abs() == Fresh(now)
    {
      SetState(Closed, now);
      ClearCounters();
    }

    method ForceOpen(now: Time)
      modifies this
      ensures Abs() == old(Abs()).(state := Open, stateChanged := now)
    {
      SetState(Open, now);
    }

    method ForceClose(now: Time)
      modifies this
      ensures Abs() == Fresh(now)
    {
      SetState(Closed, now);
      ClearCounters();
    }

    /** `fails` is the outcome of the protected call, which starts at `now` and ends at `done`. */
    method Execute(fails: bool, now: Time, done: Time) returns (ran: bool)
      modifies this
      ensures ran == Admits(config, old(Abs()), now)
      ensures Abs() == if !ran then old(Abs())
                       else After(config, After(config, old(Abs()), Op.Allow, now),
                                  if fails then Op.RecordFailure else Op.RecordSuccess, done)
    {
      ran := Allow(now);
      if ran {
        if fails {
          RecordFailure(done);
        } else {
          RecordSuccess(done);
        }
      }
    }
  }

  // ---- Runs: any interleaving of all operations by any number of callers ----

  datatype Event = Event(op: Op, now: Time)

  function Run(c: Config, b: Counters, events: seq<Event>): Counters {
    if events == [] then b
    else var last := events[|events| - 1]; After(c, Run(c, b, events[..|events| - 1]), last.op, last.now)
  }

  // ---- The breaker never wedges ----

  ghost predicate Healthy(c: Config, b: Counters) {
    && 0 <= b.successes < c.halfOpenMax
    && 0 <= b.failures && 0 <= b.attempts
    && (b.state == HalfOpen ==> b.attempts == 0 || (b.attempts <= b.failures < c.maxFailures))
    && (b.state == Closed ==> b.successes == 0)
  }

  /** Half-open admits, and stays able to close or re-trip, under exactly these settings. */
  predicate Sound(c: Config) {
    c.halfOpenMax >= 1 && (0 < c.ratioNum <= c.ratioDen || c.maxFailures <= c.halfOpenMax)
  }

  lemma RatioOneTrips(c: Config, n: int)
    requires 0 < c.ratioNum <= c.ratioDen && n >= 1
    ensures n * c.ratioDen >= c.ratioNum * 1
  {
    assert n * c.ratioDen >= 1 * c.ratioDen;
  }

  lemma StepHealthy(c: Config, b: Counters, e: Event)
    requires c.ratioDen > 0 && Sound(c) && Healthy(c, b)
    ensures Healthy(c, After(c, b, e.op, e.now))
    ensures 0 < c.ratioNum <= c.ratioDen && (b.state == HalfOpen ==> b.attempts == 0) ==>
              After(c, b, e.op, e.now).state == HalfOpen ==> After(c, b, e.op, e.now).attempts == 0
  {
    if e.op == RecordFailure && b.state == HalfOpen && 0 < c.ratioNum <= c.ratioDen && b.attempts == 0 {
      RatioOneTrips(c, b.failures + 1);
    }
  }

  lemma {:induction false} RunHealthy(c: Config, start: Time, events: seq<Event>)
    requires c.ratioDen > 0 && Sound(c)
    ensures Healthy(c, Run(c, Fresh(start), events))
    ensures 0 < c.ratioNum <= c.ratioDen && Run(c, Fresh(start), events).state == HalfOpen ==>
              Run(c, Fresh(start), events).attempts == 0
  {
    if events != [] {
      RunHealthy(c, start, events[..|events| - 1]);
      StepHealthy(c, Run(c, Fresh(start), events[..|events| - 1]), events[|events| - 1]);
    }
  }

  /** Closed: no success counted, fewer failures than attempts allow, and the trip condition is false. */
  ghost predicate ClosedOk(c: Config, b: Counters) {
    b.state == Closed ==>
      && b.successes == 0 && 0 <= b.failures <= b.attempts && b.failures < c.maxFailures
      && !ShouldTrip(c, b.failures, b.attempts)
  }

  lemma {:induction false} RunClosedOk(c: Config, start: Time, events: seq<Event>)
    requires c.ratioDen > 0 && c.maxFailures >= 1
    ensures ClosedOk(c, Run(c, Fresh(start), events))
  {
    if events != [] {
      var b := Run(c, Fresh(start), events[..|events| - 1]);
      RunClosedOk(c, start, events[..|events| - 1]);
      if c.ratioNum > 0 && b.state == Closed && events[|events| - 1].op == RecordSuccess {
        assert c.ratioNum * (b.attempts + 1) > 0;
      }
    }
  }

  function Trailing(events: seq<Event>): nat {
    if events == [] then 0
    else match events[|events| - 1].op
      case RecordFailure => Trailing(events[..|events| - 1]) + 1
      case RecordSuccess => 0
      case _ => Trailing(events[..|events| - 1])
  }

  function Records(events: seq<Event>): nat {
    if events == [] then 0
    else Records(events[..|events| - 1]) + if events[|events| - 1].op in {RecordSuccess, RecordFailure} then 1 else 0
  }

  /** Only calls and their outcomes, and the breaker never left Closed. */
  predicate StaysClosed(c: Config, start: Time, events: seq<Event>) {
    events != [] ==>
      && events[|events| - 1].op in {Op.Allow, RecordSuccess, RecordFailure}
      && Run(c, Fresh(start), events).state == Closed
      && StaysClosed(c, start, events[..|events| - 1])
  }

  /** A breaker that has stayed closed counts the failures since the last success, and all outcomes. */
  lemma {:induction false} ClosedCounts(c: Config, start: Time, events: seq<Event>)
    requires StaysClosed(c, start, events)
    ensures Run(c, Fresh(start), events) == Counters(Closed, Trailing(events), 0, Records(events), start)
  {
    if events != [] {
      ClosedCounts(c, start, events[..|events| - 1]);
    }
  }

  /** So it opens exactly when the run of failures reaches MaxFailures, or its share of all outcomes reaches
      FailureRatio. */
  lemma TripsExactly(c: Config, start: Time, events: seq<Event>, now: Time)
    requires StaysClosed(c, start, events)
    ensures var run, all := Trailing(events) + 1, Records(events) + 1;
            After(c, Run(c, Fresh(start), events), Op.RecordFailure, now).state == Open
            <==> run >= c.maxFailures || (c.ratioNum > 0 && run * c.ratioDen >= c.ratioNum * all)
  {
    ClosedCounts(c, start, events);
  }

  function Successes(n: nat, now: Time): seq<Event> {
    seq(n, i => Event(RecordSuccess, now))
  }

  lemma {:induction false} SuccessesAddUp(c: Config, b: Counters, n: nat, now: Time)
    requires b.state == HalfOpen && b.successes + n < c.halfOpenMax
    ensures Run(c, b, Successes(n, now)) == b.(successes := b.successes + n)
  {
    if n > 0 {
      SuccessesAddUp(c, b, n - 1, now);
      assert Successes(n, now)[..n - 1] == Successes(n - 1, now);
    }
  }

  /** The outcomes a run recorded as half-open successes since the breaker was last closed, through any
      number of episodes, re-trips and forced openings. */
  function HalfOpenSuccesses(c: Config, start: Time, events: seq<Event>): nat {
    if events == [] || Run(c, Fresh(start), events).state == Closed then 0
    else HalfOpenSuccesses(c, start, events[..|events| - 1]) + if ProbeSucceeds(c, start, events) then 1 else 0
  }

  /** The last event of the run is a success recorded while half-open. */
  predicate ProbeSucceeds(c: Config, start: Time, events: seq<Event>) {
    events != [] && events[|events| - 1].op == RecordSuccess
    && Run(c, Fresh(start), events[..|events| - 1]).state == HalfOpen
  }

  lemma {:induction false} SuccessesCounted(c: Config, start: Time, events: seq<Event>)
    ensures Run(c, Fresh(start), events).successes == HalfOpenSuccesses(c, start, events)
    ensures Run(c, Fresh(start), events).state == Closed ==> Run(c, Fresh(start), events).successes == 0
  {
    if events != [] {
      SuccessesCounted(c, start, events[..|events| - 1]);
    }
  }

  /** After any run, a half-open breaker closes at a success, with clean counters, if and only if that
      success brings the count since the last close to HalfOpenMaxAttempts. */
  lemma HalfOpenClosesExactly(c: Config, start: Time, events: seq<Event>, now: Time)
    requires Run(c, Fresh(start), events).state == HalfOpen
    ensures var b := After(c, Run(c, Fresh(start), events), Op.RecordSuccess, now);
            && (b.state == Closed <==> HalfOpenSuccesses(c, start, events) + 1 >= c.halfOpenMax)
            && (b.state == Closed ==> b == Fresh(now))
  {
    SuccessesCounted(c, start, events);
  }

  /** The half-open successes of the current episode: since the breaker last became half-open. */
  function EpisodeSuccesses(c: Config, start: Time, events: seq<Event>): nat {
    if events == [] || Run(c, Fresh(start), events).state != HalfOpen then 0
    else EpisodeSuccesses(c, start, events[..|events| - 1]) + if ProbeSucceeds(c, start, events) then 1 else 0
  }

  /** The last event of the run is a half-open success that closes the breaker. */
  predicate ProbeCloses(c: Config, start: Time, events: seq<Event>) {
    ProbeSucceeds(c, start, events) && Run(c, Fresh(start), events).state == Closed
  }

  /** Every closing probe completes HalfOpenMaxAttempts successes within one episode. */
  ghost predicate ClosesInOneEpisode(c: Config) {
    forall start: Time, events: seq<Event> | Ordered(start, events) && ProbeCloses(c, start, events) ::
      EpisodeSuccesses(c, start, events[..|events| - 1]) + 1 >= c.halfOpenMax
  }

  function Enough(c: Config): nat {
    if c.maxFailures < 1 then 1 else c.maxFailures
  }

  /** As many failures as it takes, then a probe after the timeout. */
  function Tripping(c: Config, start: Time): seq<Event> {
    Failures(Enough(c), start) + [Event(Op.Allow, start + Wait(c))]
  }

  lemma {:induction false} FailuresTrip(c: Config, start: Time, n: nat)
    ensures var b := Run(c, Fresh(start), Failures(n, start));
            && b.failures == n && b.successes == 0 && b.stateChanged == start
            && (n >= 1 && n >= c.maxFailures ==> b.state == Open)
  {
    if n > 0 {
      FailuresTrip(c, start, n - 1);
      assert Failures(n, start)[..n - 1] == Failures(n - 1, start);
    }
  }

  lemma RunSnoc(c: Config, b: Counters, events: seq<Event>, e: Event)
    ensures Run(c, b, events + [e]) == After(c, Run(c, b, events), e.op, e.now)
  {
    assert (events + [e])[..|events|] == events;
  }

  lemma TrippingProbes(c: Config, start: Time)
    ensures var b := Run(c, Fresh(start), Tripping(c, start));
            b.state == HalfOpen && b.failures == Enough(c) && b.successes == b.attempts == 0
            && b.stateChanged == start + Wait(c)
  {
    FailuresTrip(c, start, Enough(c));
    RunSnoc(c, Fresh(start), Failures(Enough(c), start), Event(Op.Allow, start + Wait(c)));
  }

  /** The mixed run up to the second probe: one success on the books, none of them in the new episode. */
  function Reprobed(c: Config, start: Time): seq<Event> {
    Tripping(c, start) + [Event(RecordSuccess, start + Wait(c))] + [Event(RecordFailure, start + Wait(c))]
    + [Event(Op.Allow, start + 2 * Wait(c))]
  }

  lemma ReprobedState(c: Config, start: Time)
    requires c.halfOpenMax >= 2
    ensures var b := Run(c, Fresh(start), Reprobed(c, start));
            b.state == HalfOpen && b.successes == 1 && EpisodeSuccesses(c, start, Reprobed(c, start)) == 0
  {
    TrippingProbes(c, start);
    var tripped := Tripping(c, start) + [Event(RecordSuccess, start + Wait(c))];
    RunSnoc(c, Fresh(start), Tripping(c, start), Event(RecordSuccess, start + Wait(c)));
    RunSnoc(c, Fresh(start), tripped, Event(RecordFailure, start + Wait(c)));
    var open := tripped + [Event(RecordFailure, start + Wait(c))];
    assert Run(c, Fresh(start), open).state == Open;
    RunSnoc(c, Fresh(start), open, Event(Op.Allow, start + 2 * Wait(c)));
    assert Reprobed(c, start)[..|open|] == open;
  }

  lemma {:induction false} EpisodeAddsUp(c: Config, start: Time, events: seq<Event>, n: nat, now: Time)
    requires Run(c, Fresh(start), events).state == HalfOpen
    requires Run(c, Fresh(start), events).successes + n < c.halfOpenMax
    ensures var run := events + Successes(n, now);
            && Run(c, Fresh(start), run) == Run(c, Fresh(start), events).(successes := Run(c, Fresh(start), events).successes + n)
            && EpisodeSuccesses(c, start, run) == EpisodeSuccesses(c, start, events) + n
  {
    if n == 0 {
      assert events + Successes(0, now) == events;
    } else {
      var front := events + Successes(n - 1, now);
      EpisodeAddsUp(c, start, events, n - 1, now);
      assert events + Successes(n, now) == front + [Event(RecordSuccess, now)];
      RunSnoc(c, Fresh(start), front, Event(RecordSuccess, now));
      assert (front + [Event(RecordSuccess, now)])[..|front|] == front;
    }
  }

  /** The run that mixes episodes: trip, succeed once, trip again, then succeed until closed. It needs no
      manual operation. */
  function MixedRun(c: Config): seq<Event>
    requires c.halfOpenMax >= 2
  {
    Reprobed(c, 0) + Successes(c.halfOpenMax - 2, 2 * Wait(c)) + [Event(RecordSuccess, 2 * Wait(c))]
  }

  lemma MixedRunOrdered(c: Config)
    requires c.halfOpenMax >= 2
    ensures Ordered(0, MixedRun(c))
  {
    var events := MixedRun(c);
    var w, n := Wait(c), Enough(c);
    forall i | 0 <= i < |events|
      ensures events[i].now == if i < n then 0 else if i < n + 3 then w else 2 * w
    {
      if i >= |Reprobed(c, 0)| && i < |events| - 1 {
        assert events[i] == Successes(c.halfOpenMax - 2, 2 * w)[i - |Reprobed(c, 0)|];
      } else if i < n {
        assert events[i] == Tripping(c, 0)[i] == Failures(n, 0)[i];
      }
    }
  }

  lemma MixedRunCloses(c: Config)
    requires c.halfOpenMax >= 2
    ensures var events := MixedRun(c);
            ProbeCloses(c, 0, events) && EpisodeSuccesses(c, 0, events[..|events| - 1]) == c.halfOpenMax - 2
  {
    var front := Reprobed(c, 0) + Successes(c.halfOpenMax - 2, 2 * Wait(c));
    ReprobedState(c, 0);
    EpisodeAddsUp(c, 0, Reprobed(c, 0), c.halfOpenMax - 2, 2 * Wait(c));
    RunSnoc(c, Fresh(0), front, Event(RecordSuccess, 2 * Wait(c)));
    assert MixedRun(c)[..|front|] == front;
  }

  /** The count survives a re-trip, so closing always takes its successes from one episode if and only if
      one success is all it takes. */
  lemma OneEpisodeExactly(c: Config)
    ensures ClosesInOneEpisode(c) <==> c.halfOpenMax <= 1
  {
    if c.halfOpenMax >= 2 {
      MixedRunOrdered(c);
      MixedRunCloses(c);
      assert !ClosesInOneEpisode(c);
    }
  }

  /** Wedged: half-open, admitting nobody. */
  predicate Wedged(c: Config, b: Counters) {
    b.state == HalfOpen && b.attempts >= c.halfOpenMax
  }

  /** Half-open, and closed to every call at every time. */
  ghost predicate DeniesForever(c: Config, b: Counters) {
    b.state == HalfOpen && forall now: Time :: !Admits(c, b, now)
  }

  lemma WedgedExactly(c: Config, b: Counters)
    ensures DeniesForever(c, b) <==> Wedged(c, b)
    ensures b.state == HalfOpen && b.attempts < c.halfOpenMax ==> forall now: Time :: Admits(c, b, now)
  {
    if DeniesForever(c, b) { assert !Admits(c, b, 0); }
  }

  /** A wedged breaker denies every call and keeps every denied caller from changing it, at any times. */
  lemma {:induction false} WedgedForever(c: Config, b: Counters, events: seq<Event>, now: Time)
    requires Wedged(c, b) && forall i | 0 <= i < |events| :: events[i].op == Op.Allow
    ensures Run(c, b, events) == b && !Admits(c, Run(c, b, events), now)
  {
    if events != [] {
      WedgedForever(c, b, events[..|events| - 1], now);
    }
  }

  function SuccessesIn(events: seq<Event>): nat {
    if events == [] then 0
    else SuccessesIn(events[..|events| - 1]) + if events[|events| - 1].op == RecordSuccess then 1 else 0
  }

  function FailuresIn(events: seq<Event>): nat {
    if events == [] then 0
    else FailuresIn(events[..|events| - 1]) + if events[|events| - 1].op == RecordFailure then 1 else 0
  }

  /** Wedged before, during and after the run. */
  predicate StaysWedged(c: Config, b: Counters, events: seq<Event>) {
    Wedged(c, Run(c, b, events)) && (events != [] ==> StaysWedged(c, b, events[..|events| - 1]))
  }

  /** What lifts a wedge: a manual operation, or, from a call let through before it, the success that
      completes the count or a failure that trips. */
  predicate Lifts(c: Config, b: Counters, op: Op, successes: nat, failures: nat) {
    match op
    case Allow => false
    case RecordSuccess => b.successes + successes >= c.halfOpenMax
    case RecordFailure => ShouldTrip(c, b.failures + failures, b.attempts + failures)
    case _ => true
  }

  predicate NothingLifts(c: Config, b: Counters, events: seq<Event>) {
    events != [] ==>
      && NothingLifts(c, b, events[..|events| - 1])
      && !Lifts(c, b, events[|events| - 1].op, SuccessesIn(events), FailuresIn(events))
  }

  /** A wedge lasts through a run of any operations if and only if none of them lifts it. */
  lemma {:induction false} WedgeLiftsExactly(c: Config, b: Counters, events: seq<Event>)
    requires Wedged(c, b)
    ensures StaysWedged(c, b, events) <==> NothingLifts(c, b, events)
    ensures StaysWedged(c, b, events) ==>
              Run(c, b, events) == b.(successes := b.successes + SuccessesIn(events),
                                      failures := b.failures + FailuresIn(events),
                                      attempts := b.attempts + FailuresIn(events))
  {
    if events != [] {
      WedgeLiftsExactly(c, b, events[..|events| - 1]);
    }
  }

  function Failures(n: nat, now: Time): seq<Event> {
    seq(n, i => Event(RecordFailure, now))
  }

  /** The way in: open by hand, wait, probe, and let half-open calls fail without tripping. */
  function WedgingRun(c: Config, start: Time): seq<Event>
    requires c.halfOpenMax >= 1
  {
    [Event(ForceOpen, start), Event(Op.Allow, start + Wait(c))] + Failures(c.halfOpenMax, start + Wait(c))
  }

  function Wait(c: Config): nat {
    if c.timeout < 0 then 0 else c.timeout + 1
  }

  lemma {:induction false} FailuresPileUp(c: Config, b: Counters, n: nat, now: Time)
    requires c.ratioDen > 0 && !(0 < c.ratioNum <= c.ratioDen)
    requires b.state == HalfOpen && b.failures == b.attempts == 0 && n < c.maxFailures
    ensures Run(c, b, Failures(n, now)) == b.(failures := n, attempts := n)
  {
    if n > 0 {
      FailuresPileUp(c, b, n - 1, now);
      assert Failures(n, now)[..n - 1] == Failures(n - 1, now);
      if c.ratioNum > 0 {
        assert n * c.ratioDen < n * c.ratioNum;
      }
    }
  }

  lemma {:induction false} RunAppend(c: Config, b: Counters, xs: seq<Event>, ys: seq<Event>)
    ensures Run(c, b, xs + ys) == Run(c, Run(c, b, xs), ys)
  {
    if ys == [] {
      assert xs + ys == xs;
    } else {
      assert (xs + ys)[..|xs + ys| - 1] == xs + ys[..|ys| - 1];
      RunAppend(c, b, xs, ys[..|ys| - 1]);
    }
  }

  lemma UnsoundWedges(c: Config, start: Time)
    requires c.ratioDen > 0 && c.halfOpenMax >= 1 && !Sound(c)
    ensures Wedged(c, Run(c, Fresh(start), WedgingRun(c, start)))
  {
    var open := [Event(ForceOpen, start)];
    var probe := [Event(Op.Allow, start + Wait(c))];
    var b1 := Fresh(start).(state := Open);
    assert open[..0] == [];
    assert Run(c, Fresh(start), []) == Fresh(start);
    assert Run(c, Fresh(start), open) == b1;
    assert (open + probe)[..1] == open;
    assert Admits(c, b1, start + Wait(c));
    var b2 := Run(c, Fresh(start), open + probe);
    assert b2 == b1.(state := HalfOpen, stateChanged := start + Wait(c));
    RunAppend(c, Fresh(start), open + probe, Failures(c.halfOpenMax, start + Wait(c)));
    FailuresPileUp(c, b2, c.halfOpenMax, start + Wait(c));
    assert WedgingRun(c, start) == open + probe + Failures(c.halfOpenMax, start + Wait(c));
  }

  /** Times never go back, starting from the breaker's creation. */
  predicate Ordered(start: Time, events: seq<Event>) {
    && (forall i | 0 <= i < |events| :: start <= events[i].now)
    && (forall i, j | 0 <= i < j < |events| :: events[i].now <= events[j].now)
  }

  ghost predicate NeverWedges(c: Config) {
    forall start: Time, events: seq<Event> | Ordered(start, events) :: !DeniesForever(c, Run(c, Fresh(start), events))
  }

  /** For every configuration the constructor yields: no run wedges the breaker if and only if half-open
      takes at least one attempt and either 0 < FailureRatio <= 1 or MaxFailures <= HalfOpenMaxAttempts.
      A negative HalfOpenMaxAttempts is not replaced by the default and denies from the first probe on. */
  lemma NeverWedgesExactly(config: Config)
    requires config.ratioDen > 0
    ensures NeverWedges(Normalize(config)) <==> Sound(Normalize(config))
  {
    var c := Normalize(config);
    if Sound(c) {
      forall start: Time, events: seq<Event> | Ordered(start, events)
        ensures !DeniesForever(c, Run(c, Fresh(start), events))
      {
        RunHealthy(c, start, events);
        WedgedExactly(c, Run(c, Fresh(start), events));
      }
    } else if c.halfOpenMax >= 1 {
      UnsoundWedges(c, 0);
      WedgedExactly(c, Run(c, Fresh(0), WedgingRun(c, 0)));
      assert Ordered(0, WedgingRun(c, 0));
      assert !NeverWedges(c);
    } else {
      var events := [Event(ForceOpen, 0), Event(Op.Allow, Wait(c))];
      assert events[..1] == [Event(ForceOpen, 0)];
      assert events[..1][..0] == [];
      assert Run(c, Fresh(0), events[..1]) == Fresh(0).(state := Open);
      WedgedExactly(c, Run(c, Fresh(0), events));
      assert DeniesForever(c, Run(c, Fresh(0), events)) && Ordered(0, events);
      assert !NeverWedges(c);
    }
  }

  predicate Unforced(events: seq<Event>) {
    forall i | 0 <= i < |events| :: events[i].op != ForceOpen
  }

  /** A breaker opened by failures alone: the failures that opened it would open it again. */
  ghost predicate TrippedOnly(c: Config, b: Counters) {
    && 0 <= b.failures && 0 <= b.attempts
    && (b.state == Closed ==> b.failures <= b.attempts)
    && (b.state != Closed ==> b.failures >= c.maxFailures || 0 < c.ratioNum <= c.ratioDen)
    && (b.state == HalfOpen ==> b.attempts == 0)
  }

  lemma RatioTripIsAtMostOne(c: Config, failures: int, attempts: int)
    requires c.ratioDen > 0 && 0 < attempts && failures <= attempts && failures * c.ratioDen >= c.ratioNum * attempts
    ensures c.ratioNum <= c.ratioDen
  {
    assert failures * c.ratioDen <= attempts * c.ratioDen;
    assert (c.ratioDen - c.ratioNum) * attempts >= 0;
  }

  lemma StepTrippedOnly(c: Config, b: Counters, e: Event)
    requires c.ratioDen > 0 && TrippedOnly(c, b) && e.op != ForceOpen
    ensures TrippedOnly(c, After(c, b, e.op, e.now))
  {
    if e.op == RecordFailure && ShouldTrip(c, b.failures + 1, b.attempts + 1) && b.state == Closed
       && b.failures + 1 < c.maxFailures {
      RatioTripIsAtMostOne(c, b.failures + 1, b.attempts + 1);
    }
    if e.op == RecordFailure && b.state == HalfOpen && b.failures < c.maxFailures {
      RatioOneTrips(c, b.failures + 1);
    }
  }

  lemma {:induction false} RunTrippedOnly(c: Config, start: Time, events: seq<Event>)
    requires c.ratioDen > 0 && Unforced(events)
    ensures TrippedOnly(c, Run(c, Fresh(start), events))
  {
    if events != [] {
      RunTrippedOnly(c, start, events[..|events| - 1]);
      assert events[|events| - 1].op != ForceOpen;
      StepTrippedOnly(c, Run(c, Fresh(start), events[..|events| - 1]), events[|events| - 1]);
    }
  }

  ghost predicate NeverWedgesUnforced(c: Config) {
    forall start: Time, events: seq<Event> | Ordered(start, events) && Unforced(events) ::
      !DeniesForever(c, Run(c, Fresh(start), events))
  }

  /** Without ForceOpen the breaker wedges only where half-open admits nobody to begin with: for every
      FailureRatio and MaxFailures, no such run wedges it if and only if HalfOpenMaxAttempts is positive. */
  lemma NeverWedgesUnforcedExactly(config: Config)
    requires config.ratioDen > 0
    ensures NeverWedgesUnforced(Normalize(config)) <==> Normalize(config).halfOpenMax >= 1
  {
    var c := Normalize(config);
    if c.halfOpenMax >= 1 {
      forall start: Time, events: seq<Event> | Ordered(start, events) && Unforced(events)
        ensures !DeniesForever(c, Run(c, Fresh(start), events))
      {
        RunTrippedOnly(c, start, events);
        WedgedExactly(c, Run(c, Fresh(start), events));
      }
    } else {
      TrippingProbes(c, 0);
      WedgedExactly(c, Run(c, Fresh(0), Tripping(c, 0)));
      assert Ordered(0, Tripping(c, 0)) && Unforced(Tripping(c, 0));
    }
  }

  // ---- Admission and recovery ----

  /** A breaker that any run left closed admits at every time. */
  lemma ClosedAdmits(c: Config, start: Time, events: seq<Event>, now: Time)
    requires Run(c, Fresh(start), events).state == Closed
    ensures Admits(c, Run(c, Fresh(start), events), now)
  {
  }

  /** Forced open, whatever went before, it admits again once Timeout has passed, and not before. */
  lemma ForcedOpenDenies(c: Config, b: Counters, events: seq<Event>, t: Time, now: Time)
    ensures Admits(c, Run(c, b, events + [Event(ForceOpen, t)]), now) <==> now - t > c.timeout
  {
    RunSnoc(c, b, events, Event(ForceOpen, t));
  }

  /** Closed by hand, it goes on as a new breaker would. */
  lemma ManualCloseForgets(c: Config, b: Counters, op: Op, now: Time, events: seq<Event>)
    requires op == Reset || op == ForceClose
    ensures Run(c, b, [Event(op, now)] + events) == Run(c, Fresh(now), events)
  {
    RunSnoc(c, b, [], Event(op, now));
    assert [] + [Event(op, now)] == [Event(op, now)];
    RunAppend(c, b, [Event(op, now)], events);
  }

  /** A call protected by the breaker that succeeds: when it asks and when it is done. */
  datatype Success = Success(asked: Time, done: Time)

  function Served(calls: seq<Success>): seq<Event> {
    if calls == [] then []
    else
      var last := calls[|calls| - 1];
      Served(calls[..|calls| - 1]) + [Event(Op.Allow, last.asked)] + [Event(RecordSuccess, last.done)]
  }

  lemma ServedLast(c: Config, b: Counters, calls: seq<Success>)
    requires calls != []
    ensures var last := calls[|calls| - 1];
            Run(c, b, Served(calls))
            == After(c, After(c, Run(c, b, Served(calls[..|calls| - 1])), Op.Allow, last.asked), RecordSuccess, last.done)
  {
    var front, last := Served(calls[..|calls| - 1]), calls[|calls| - 1];
    RunSnoc(c, b, front, Event(Op.Allow, last.asked));
    RunSnoc(c, b, front + [Event(Op.Allow, last.asked)], Event(RecordSuccess, last.done));
  }

  lemma {:induction false} RecoveredState(c: Config, b: Counters, calls: seq<Success>)
    requires b.state == Open && 0 <= b.successes && calls != [] && calls[0].asked - b.stateChanged > c.timeout
    requires b.successes + |calls| <= c.halfOpenMax
    ensures Run(c, b, Served(calls))
            == if b.successes + |calls| == c.halfOpenMax then Fresh(calls[|calls| - 1].done)
               else Counters(HalfOpen, b.failures, b.successes + |calls|, 0, calls[0].asked)
  {
    ServedLast(c, b, calls);
    if |calls| == 1 {
      assert Served(calls[..0]) == [];
    } else {
      RecoveredState(c, b, calls[..|calls| - 1]);
    }
  }

  /** The first call of an open breaker after Timeout, and those after it, are admitted until enough have
      succeeded; then the breaker is as new. */
  lemma Recovers(c: Config, b: Counters, calls: seq<Success>)
    requires b.state == Open && 0 <= b.successes && calls != [] && calls[0].asked - b.stateChanged > c.timeout
    requires b.successes + |calls| == c.halfOpenMax
    ensures forall i | 0 <= i < |calls| :: Admits(c, Run(c, b, Served(calls[..i])), calls[i].asked)
    ensures Run(c, b, Served(calls)) == Fresh(calls[|calls| - 1].done)
  {
    RecoveredState(c, b, calls);
    forall i | 0 <= i < |calls| ensures Admits(c, Run(c, b, Served(calls[..i])), calls[i].asked) {
      if i == 0 {
        assert Served(calls[..0]) == [];
      } else {
        RecoveredState(c, b, calls[..i]);
      }
    }
  }

  /** However a breaker came to be open: HalfOpenMaxAttempts successes since it was last closed, one if that is
      left at 0, bring it back, the first of the missing ones asked for more than Timeout after the window began. */
  lemma {:induction false} OpenRecovers(config: Config, start: Time, events: seq<Event>, calls: seq<Success>)
    requires config.halfOpenMax >= 0
    requires var b := Run(Normalize(config), Fresh(start), events);
             b.state == Open && calls != [] && calls[0].asked - b.stateChanged > config.timeout
    requires |calls| + HalfOpenSuccesses(Normalize(config), start, events)
             == if config.halfOpenMax == 0 then 1 else config.halfOpenMax
    ensures var c, b := Normalize(config), Run(Normalize(config), Fresh(start), events);
            && (forall i | 0 <= i < |calls| :: Admits(c, Run(c, b, Served(calls[..i])), calls[i].asked))
            && Run(c, b, Served(calls)) == Fresh(calls[|calls| - 1].done)
  {
    SuccessesCounted(Normalize(config), start, events);
    Recovers(Normalize(config), Run(Normalize(config), Fresh(start), events), calls);
  }

  // ---- Cool-down ----

  /** The mediant of a ratio at or above the threshold with 1/1 stays at or above it. */
  lemma TripPersists(c: Config, failures: int, attempts: int)
    requires c.ratioDen > 0 && c.ratioNum <= c.ratioDen && 0 <= attempts
    requires ShouldTrip(c, failures, attempts)
    ensures ShouldTrip(c, failures + 1, attempts + 1)
  {
    if failures < c.maxFailures {
      assert (failures + 1) * c.ratioDen == failures * c.ratioDen + c.ratioDen;
      assert c.ratioNum * (attempts + 1) == c.ratioNum * attempts + c.ratioNum;
    }
  }

  /** Whatever MaxFailures is, the condition survives one more failure. */
  ghost predicate TripLasts(c: Config) {
    forall maxFailures: int, failures: int, attempts: int ::
      0 <= attempts && ShouldTrip(c.(maxFailures := maxFailures), failures, attempts)
      ==> ShouldTrip(c.(maxFailures := maxFailures), failures + 1, attempts + 1)
  }

  /** It does so if and only if FailureRatio is at most one: above one, failures in exactly that ratio to the
      attempts trip, and one more failure brings the share below it. */
  lemma TripPersistsExactly(c: Config)
    requires c.ratioDen > 0
    ensures TripLasts(c) <==> c.ratioNum <= c.ratioDen
  {
    if c.ratioNum <= c.ratioDen {
      forall maxFailures: int, failures: int, attempts: int
        | 0 <= attempts && ShouldTrip(c.(maxFailures := maxFailures), failures, attempts)
        ensures ShouldTrip(c.(maxFailures := maxFailures), failures + 1, attempts + 1)
      {
        TripPersists(c.(maxFailures := maxFailures), failures, attempts);
      }
    } else {
      TripLostAboveOne(c);
    }
  }

  lemma TripLostAboveOne(c: Config)
    requires 0 < c.ratioDen < c.ratioNum
    ensures var d := c.(maxFailures := c.ratioNum + 2);
            ShouldTrip(d, c.ratioNum, c.ratioDen) && !ShouldTrip(d, c.ratioNum + 1, c.ratioDen + 1)
  {
    assert (c.ratioNum + 1) * c.ratioDen == c.ratioNum * c.ratioDen + c.ratioDen;
    assert c.ratioNum * (c.ratioDen + 1) == c.ratioNum * c.ratioDen + c.ratioNum;
  }

  predicate Automatic(op: Op) {
    op != Reset && op != ForceClose
  }

  /** No call was let through anywhere in the run. */
  ghost predicate NothingAdmitted(c: Config, b: Counters, events: seq<Event>) {
    forall i | 0 <= i < |events| && events[i].op == Op.Allow :: !Admits(c, Run(c, b, events[..i]), events[i].now)
  }

  /** The last moment of a run at which a failure was recorded or the breaker was forced open. */
  function LastTrip(events: seq<Event>, otherwise: Time): Time {
    if events == [] then otherwise
    else if events[|events| - 1].op in {RecordFailure, ForceOpen} then events[|events| - 1].now
    else LastTrip(events[..|events| - 1], otherwise)
  }

  /** The start of the cool-down window of an open breaker: the last moment it was forced open or a failure
      found the trip condition true on the counters so far. */
  function WindowStart(c: Config, b: Counters, events: seq<Event>): Time {
    if events == [] then b.stateChanged
    else
      var last := events[|events| - 1];
      if last.op == ForceOpen
         || (last.op == RecordFailure && ShouldTrip(c, b.failures + FailuresIn(events), b.attempts + FailuresIn(events)))
      then last.now else WindowStart(c, b, events[..|events| - 1])
  }

  lemma NothingAdmittedFront(c: Config, b: Counters, events: seq<Event>)
    requires NothingAdmitted(c, b, events) && events != []
    ensures NothingAdmitted(c, b, events[..|events| - 1])
    ensures events[|events| - 1].op == Op.Allow ==>
              !Admits(c, Run(c, b, events[..|events| - 1]), events[|events| - 1].now)
  {
    var front := events[..|events| - 1];
    forall i | 0 <= i < |front| && front[i].op == Op.Allow
      ensures !Admits(c, Run(c, b, front[..i]), front[i].now)
    {
      assert front[..i] == events[..i];
    }
  }

  /** Any open breaker, tripped or forced: until a call is admitted or it is closed by hand it stays open,
      counting the failures that still come in. */
  lemma {:induction false} OpenWindow(c: Config, b: Counters, events: seq<Event>)
    requires b.state == Open
    requires forall i | 0 <= i < |events| :: Automatic(events[i].op)
    requires NothingAdmitted(c, b, events)
    ensures Run(c, b, events) == b.(failures := b.failures + FailuresIn(events),
                                    attempts := b.attempts + FailuresIn(events),
                                    stateChanged := WindowStart(c, b, events))
  {
    if events != [] {
      NothingAdmittedFront(c, b, events);
      OpenWindow(c, b, events[..|events| - 1]);
      assert Automatic(events[|events| - 1].op);
    }
  }

  /** So its next call is admitted if and only if more than Timeout passed since the start of the window. */
  lemma OpenAdmitsExactly(c: Config, b: Counters, events: seq<Event>, now: Time)
    requires b.state == Open
    requires forall i | 0 <= i < |events| :: Automatic(events[i].op)
    requires NothingAdmitted(c, b, events)
    ensures Admits(c, Run(c, b, events), now) <==> now - WindowStart(c, b, events) > c.timeout
  {
    OpenWindow(c, b, events);
  }

  lemma {:induction false} TripPersistsLong(c: Config, failures: int, attempts: int, n: nat)
    requires c.ratioDen > 0 && c.ratioNum <= c.ratioDen && 0 <= attempts
    requires ShouldTrip(c, failures, attempts)
    ensures ShouldTrip(c, failures + n, attempts + n)
  {
    if n > 0 {
      TripPersistsLong(c, failures, attempts, n - 1);
      TripPersists(c, failures + n - 1, attempts + n - 1);
    }
  }

  /** If the next failure would find the condition true, every late failure does. */
  lemma {:induction false} WindowIsLastTrip(c: Config, b: Counters, events: seq<Event>)
    requires c.ratioDen > 0 && c.ratioNum <= c.ratioDen && 0 <= b.attempts
    requires ShouldTrip(c, b.failures + 1, b.attempts + 1)
    ensures WindowStart(c, b, events) == LastTrip(events, b.stateChanged)
  {
    if events != [] {
      WindowIsLastTrip(c, b, events[..|events| - 1]);
      if events[|events| - 1].op == RecordFailure {
        TripPersistsLong(c, b.failures + 1, b.attempts + 1, FailuresIn(events) - 1);
      }
    }
  }

  /** Whatever comes in, every late failure restarts the window. */
  ghost predicate AlwaysRearms(c: Config, b: Counters) {
    forall events: seq<Event>
      | (forall i | 0 <= i < |events| :: Automatic(events[i].op)) && NothingAdmitted(c, b, events) ::
      Run(c, b, events).stateChanged == LastTrip(events, b.stateChanged)
  }

  /** This holds of an open breaker if and only if its counters are one failure away from tripping or past
      that; a breaker forced open further below the threshold ignores its first late failures. */
  lemma AlwaysRearmsExactly(c: Config, b: Counters)
    requires c.ratioDen > 0 && c.ratioNum <= c.ratioDen
    requires b.state == Open && 0 <= b.attempts
    ensures AlwaysRearms(c, b) <==> ShouldTrip(c, b.failures + 1, b.attempts + 1)
  {
    if ShouldTrip(c, b.failures + 1, b.attempts + 1) {
      forall events: seq<Event>
        | (forall i | 0 <= i < |events| :: Automatic(events[i].op)) && NothingAdmitted(c, b, events)
        ensures Run(c, b, events).stateChanged == LastTrip(events, b.stateChanged)
      {
        OpenWindow(c, b, events);
        WindowIsLastTrip(c, b, events);
      }
    } else {
      var late := [Event(RecordFailure, b.stateChanged + 1)];
      assert late[..0] == [];
      assert Run(c, b, []) == b;
      assert Run(c, b, late).stateChanged == b.stateChanged;
    }
  }

  /** Once tripped, and until a call is admitted or the breaker is closed by hand, the breaker stays open
      with the trip condition true, and every late failure restarts the cool-down window. */
  lemma {:induction false} StaysTripped(c: Config, b: Counters, events: seq<Event>)
    requires c.ratioDen > 0 && c.ratioNum <= c.ratioDen
    requires b.state == Open && 0 <= b.attempts && ShouldTrip(c, b.failures, b.attempts)
    requires forall i | 0 <= i < |events| :: Automatic(events[i].op)
    requires NothingAdmitted(c, b, events)
    ensures var b' := Run(c, b, events);
            && b'.state == Open && 0 <= b'.attempts && ShouldTrip(c, b'.failures, b'.attempts)
            && b'.stateChanged == LastTrip(events, b.stateChanged)
  {
    if events != [] {
      NothingAdmittedFront(c, b, events);
      StaysTripped(c, b, events[..|events| - 1]);
      var b1 := Run(c, b, events[..|events| - 1]);
      assert Automatic(events[|events| - 1].op);
      TripPersists(c, b1.failures, b1.attempts);
    }
  }

  /** So the next call is admitted if and only if more than Timeout passed since the most recent failure
      (or forced opening, or, with neither, since the trip). */
  lemma CoolDownExactly(c: Config, b: Counters, events: seq<Event>, now: Time)
    requires c.ratioDen > 0 && c.ratioNum <= c.ratioDen
    requires b.state == Open && 0 <= b.attempts && ShouldTrip(c, b.failures, b.attempts)
    requires forall i | 0 <= i < |events| :: Automatic(events[i].op)
    requires NothingAdmitted(c, b, events)
    ensures Admits(c, Run(c, b, events), now) <==> now - LastTrip(events, b.stateChanged) > c.timeout
  {
    StaysTripped(c, b, events);
  }

  /** Every failure that opens the breaker leaves it in the state the cool-down lemmas start from. */
  lemma FailureTrips(c: Config, b: Counters, now: Time)
    requires 0 <= b.attempts && b.state != Open && After(c, b, Op.RecordFailure, now).state == Open
    ensures var b' := After(c, b, Op.RecordFailure, now);
            b'.stateChanged == now && 0 <= b'.attempts && ShouldTrip(c, b'.failures, b'.attempts)
  {
  }
}
