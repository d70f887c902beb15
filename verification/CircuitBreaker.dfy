/** `CircuitBreaker` (backend/circuit_breaker.py): every critical section is one step, the external call
    runs between two of them, and any number of callers may be between theirs. Time is the monotonic clock. */
module CircuitBreaker {
  import opened Sets

  datatype State = CLOSED | OPEN | HALF_OPEN

  datatype Config = Config(failureThreshold: int, recoveryTimeout: real)

  datatype Fields = Fields(state: State, failureCount: nat, successCount: nat, lastFailure: real)

  const FRESH := Fields(CLOSED, 0, 0, 0.0)

  // ── The critical sections as functions ──────────────────────────────────

  /** `_current_state`: an OPEN breaker that has cooled down becomes HALF_OPEN. */
  function Cooled(c: Config, f: Fields, now: real): Fields {
    if f.state == OPEN && now - f.lastFailure >= c.recoveryTimeout then f.(state := HALF_OPEN) else f
  }

  function Failed(c: Config, f: Fields, now: real): Fields {
    f.(failureCount := f.failureCount + 1,
       lastFailure := now,
       state := if f.state != OPEN && f.failureCount + 1 >= c.failureThreshold then OPEN else f.state)
  }

  function Succeeded(f: Fields): Fields {
    f.(state := CLOSED, failureCount := 0, successCount := if f.state == HALF_OPEN then 1 else f.successCount + 1)
  }

  /** The object itself; the clock reading of each critical section is a parameter. */
  class Breaker {
    const config: Config
    var state: State
    var failureCount: nat
    var successCount: nat
    var lastFailureTime: real

    ghost function View(): Fields
      reads this
    {
      Fields(state, failureCount, successCount, lastFailureTime)
    }

    constructor (config: Config)
      ensures this.config == config && View() == FRESH
    {
      this.config := config;
      state, failureCount, successCount, lastFailureTime := CLOSED, 0, 0, 0.0;
    }

    method CurrentState(now: real) returns (s: State)
      modifies this
      ensures View() == Cooled(config, old(View()), now) && s == state
      ensures s == if old(state) == OPEN && now >= lastFailureTime + config.recoveryTimeout then HALF_OPEN else old(state)
      ensures unchanged(this`failureCount, this`successCount, this`lastFailureTime)
    {
      if state == OPEN {
        var elapsed := now - lastFailureTime;
        if elapsed >= config.recoveryTimeout {
          state := HALF_OPEN;
        }
      }
      return state;
    }

    /** The first critical section of `call`: false is `CircuitOpenError`. */
    method Admit(now: real) returns (admitted: bool)
      modifies this
      ensures View() == Cooled(config, old(View()), now)
      ensures admitted <==> View().state != OPEN
      ensures !admitted <==> old(state) == OPEN && now < lastFailureTime + config.recoveryTimeout
      ensures unchanged(this`failureCount, this`successCount, this`lastFailureTime)
    {
      var s := CurrentState(now);
      return s != OPEN;
    }

    method RecordFailure(now: real)
      modifies this
      ensures View() == Failed(config, old(View()), now)
      ensures failureCount == old(failureCount) + 1 && lastFailureTime == now && successCount == old(successCount)
      ensures state == if failureCount < config.failureThreshold then old(state) else OPEN
    {
      failureCount := failureCount + 1;
      lastFailureTime := now;
      if (state == CLOSED || state == HALF_OPEN) && failureCount >= config.failureThreshold {
        state := OPEN;
      }
    }

    method RecordSuccess()
      modifies this
      ensures View() == Succeeded(old(View()))
      ensures state == CLOSED && failureCount == 0 && lastFailureTime == old(lastFailureTime)
      ensures successCount == if old(state) == HALF_OPEN then 1 else old(successCount) + 1
    {
      if state == HALF_OPEN {
        successCount := 0;
        failureCount := 0;
      }
      successCount := successCount + 1;
      state := CLOSED;
      failureCount := 0;
    }

    method Reset()
      modifies this
      ensures View() == FRESH && state == CLOSED && failureCount == 0 && successCount == 0 && lastFailureTime == 0.0
    {
      state, failureCount, successCount, lastFailureTime := CLOSED, 0, 0, 0.0;
    }
  }

  // ── Runs ────────────────────────────────────────────────────────────────

  datatype Event =
    | Enter(id: int, at: real)
    | SettleOk(id: int, at: real)
    | SettleFail(id: int, at: real)
    | ReadState(at: real)
    | Reset(at: real)

  datatype Settlement = Settlement(failed: bool, at: real)

  /** The breaker, the calls between their two critical sections, those of them that were let in while it was
      HALF_OPEN, the clock, and the settlements since the last reset. */
  datatype System = System(fields: Fields, inFlight: set<int>, probes: set<int>, now: real, log: seq<Settlement>)

  const START := System(FRESH, {}, {}, 0.0, [])

  /** Time does not go back; a call enters once and settles only after it was let in. */
  ghost predicate Enabled(s: System, e: Event) {
    && e.at >= s.now
    && (e.Enter? ==> e.id !in s.inFlight)
    && (e.SettleOk? || e.SettleFail? ==> e.id in s.inFlight)
  }

  ghost function Step(c: Config, s: System, e: Event): System {
    match e
    case Enter(id, at) =>
      var f := Cooled(c, s.fields, at);
      s.(fields := f, now := at,
         inFlight := if f.state == OPEN then s.inFlight else s.inFlight + {id},
         probes := if f.state == HALF_OPEN then s.probes + {id} else s.probes)
    case SettleOk(id, at) =>
      System(Succeeded(s.fields), s.inFlight - {id}, s.probes - {id}, at, s.log + [Settlement(false, at)])
    case SettleFail(id, at) =>
      System(Failed(c, s.fields, at), s.inFlight - {id}, s.probes - {id}, at, s.log + [Settlement(true, at)])
    case ReadState(at) => s.(fields := Cooled(c, s.fields, at), now := at)
    case Reset(at) => System(FRESH, s.inFlight, s.probes, at, [])
  }

  ghost function Run(c: Config, events: seq<Event>): System {
    if events == [] then START else Step(c, Run(c, events[..|events| - 1]), events[|events| - 1])
  }

  ghost predicate Legal(c: Config, events: seq<Event>) {
    events == [] || (Legal(c, events[..|events| - 1]) && Enabled(Run(c, events[..|events| - 1]), events[|events| - 1]))
  }

  lemma RunNext(c: Config, events: seq<Event>, e: Event)
    ensures Run(c, events + [e]) == Step(c, Run(c, events), e)
    ensures Legal(c, events + [e]) <==> Legal(c, events) && Enabled(Run(c, events), e)
  {
    assert (events + [e])[..|events|] == events;
  }

  // ── The counter refines the history ─────────────────────────────────────

  /** Length of the run of failures at the end of the log. */
  function TrailingFailures(log: seq<Settlement>): nat {
    if log == [] || !log[|log| - 1].failed then 0 else 1 + TrailingFailures(log[..|log| - 1])
  }

  ghost predicate Refines(c: Config, s: System) {
    && s.fields.failureCount == TrailingFailures(s.log)
    && (s.fields.state == CLOSED <==> TrailingFailures(s.log) < c.failureThreshold)
  }

  /** When the failure count is positive, `_last_failure_time` is the time of the latest recorded failure,
      and a HALF_OPEN breaker has cooled down since. */
  ghost predicate Timed(c: Config, s: System) {
    && (s.fields.failureCount > 0 ==> s.log != [] && s.fields.lastFailure == s.log[|s.log| - 1].at <= s.now)
    && (s.fields.state == HALF_OPEN ==> s.now - s.fields.lastFailure >= c.recoveryTimeout)
  }

  /** In every interleaving, `failure_count` is the trailing run of failures and CLOSED means it is short. */
  lemma {:induction false} CounterRefinesHistory(c: Config, events: seq<Event>)
    requires c.failureThreshold >= 1 && Legal(c, events)
    ensures Refines(c, Run(c, events)) && Timed(c, Run(c, events))
  {
    if events != [] {
      var before, e := events[..|events| - 1], events[|events| - 1];
      CounterRefinesHistory(c, before);
      var s := Run(c, before);
      if e.SettleOk? || e.SettleFail? {
        assert (s.log + [Settlement(e.SettleFail?, e.at)])[..|s.log|] == s.log;
      }
    }
  }

  /** The threshold must be at least one: otherwise a fresh breaker is already CLOSED with a run that is not short. */
  lemma RefinesExactlyForPositiveThreshold(c: Config)
    ensures (forall events :: Legal(c, events) ==> Refines(c, Run(c, events))) <==> c.failureThreshold >= 1
  {
    if c.failureThreshold >= 1 {
      forall events | Legal(c, events) ensures Refines(c, Run(c, events)) {
        CounterRefinesHistory(c, events);
      }
    } else {
      assert Legal(c, []) && !Refines(c, Run(c, []));
    }
  }

  // ── Cool-down ───────────────────────────────────────────────────────────

  ghost predicate Admitted(c: Config, s: System, e: Event) {
    e.Enter? && Cooled(c, s.fields, e.at).state != OPEN
  }

  /** In every interleaving, whoever is let in while the breaker is not CLOSED is let in at least
      `recovery_timeout` after the latest recorded failure, and the log does end with that failure. */
  lemma AdmissionAfterCoolDown(c: Config, events: seq<Event>, e: Event)
    requires c.failureThreshold >= 1 && Legal(c, events + [e])
    requires Admitted(c, Run(c, events), e) && Run(c, events).fields.state != CLOSED
    ensures var log := Run(c, events).log;
            log != [] && log[|log| - 1].failed && e.at - log[|log| - 1].at >= c.recoveryTimeout
  {
    RunNext(c, events, e);
    CounterRefinesHistory(c, events);
  }

  /** The counter is the trailing run of failures for every threshold; CLOSED means fewer than it, or than one. */
  lemma {:induction false} CounterForAnyThreshold(c: Config, events: seq<Event>)
    requires Legal(c, events)
    ensures var s := Run(c, events);
            && s.fields.failureCount == TrailingFailures(s.log) && Timed(c, s)
            && (s.fields.state == CLOSED
                <==> TrailingFailures(s.log) < if c.failureThreshold >= 1 then c.failureThreshold else 1)
  {
    if events != [] {
      var before, e := events[..|events| - 1], events[|events| - 1];
      CounterForAnyThreshold(c, before);
      var s := Run(c, before);
      if e.SettleOk? || e.SettleFail? {
        assert (s.log + [Settlement(e.SettleFail?, e.at)])[..|s.log|] == s.log;
      }
    }
  }

  /** Over every run, by the log and the clock alone: a call is let in exactly when the log ends with fewer failures than
      the threshold (at least one), or the recovery timeout has passed since the latest of them. So no number of failed
      probes keeps a breaker shut for longer than that. */
  lemma AdmittedExactly(c: Config, events: seq<Event>, id: int, at: real)
    requires Legal(c, events + [Enter(id, at)])
    ensures var log := Run(c, events).log;
            id in Run(c, events + [Enter(id, at)]).inFlight
            <==> || TrailingFailures(log) < (if c.failureThreshold >= 1 then c.failureThreshold else 1)
                 || (log != [] && at - log[|log| - 1].at >= c.recoveryTimeout)
  {
    RunNext(c, events, Enter(id, at));
    CounterForAnyThreshold(c, events);
  }

  /** The log keeps every settlement since the last reset, in order. */
  lemma LogIsHistory(c: Config, events: seq<Event>, e: Event)
    ensures Run(c, events + [e]).log
            == if e.Reset? then []
               else Run(c, events).log + (if e.SettleOk? || e.SettleFail? then [Settlement(e.SettleFail?, e.at)] else [])
  {
    RunNext(c, events, e);
  }

  /** One caller at a time, of a service that always fails, with no reset. */
  ghost predicate LoneFailingCaller(c: Config, events: seq<Event>) {
    events == [] ||
    (var before, e := events[..|events| - 1], events[|events| - 1];
     && LoneFailingCaller(c, before)
     && !e.SettleOk? && !e.Reset?
     && (e.Enter? ==> Run(c, before).inFlight == {}))
  }

  /** How many calls reached the external service. */
  ghost function Calls(c: Config, events: seq<Event>): nat {
    if events == [] then 0
    else
      var before, e := events[..|events| - 1], events[|events| - 1];
      Calls(c, before) + (if Admitted(c, Run(c, before), e) then 1 else 0)
  }

  /** The time that `n` cool-downs take. */
  ghost function CoolDowns(n: int, t: real): real { n as real * t }

  lemma OneMoreCoolDown(n: int, t: real)
    ensures CoolDowns(n + 1, t) == CoolDowns(n, t) + t && CoolDowns(0, t) == 0.0
  {}

  /** After `n` calls: all settled ones have failed, and every call past the threshold took a full cool-down. */
  ghost predicate Paced(c: Config, s: System, n: nat) {
    && s.now >= 0.0
    && (s.inFlight == {} || exists id :: s.inFlight == {id})
    && s.fields.failureCount == (if s.inFlight == {} then n else n - 1)
    && (n >= c.failureThreshold ==> s.now >= CoolDowns(n - c.failureThreshold, c.recoveryTimeout))
    && (n >= c.failureThreshold && s.inFlight == {} ==>
          s.fields.lastFailure >= CoolDowns(n - c.failureThreshold, c.recoveryTimeout))
  }

  lemma PaceStep(c: Config, s: System, n: nat, e: Event)
    requires c.failureThreshold >= 1 && Enabled(s, e) && Refines(c, s) && Timed(c, s) && Paced(c, s, n)
    requires !e.SettleOk? && !e.Reset? && (e.Enter? ==> s.inFlight == {})
    ensures Paced(c, Step(c, s, e), n + (if Admitted(c, s, e) then 1 else 0))
  {
    hide CoolDowns, TrailingFailures;
    OneMoreCoolDown(n - c.failureThreshold, c.recoveryTimeout);
    OneMoreCoolDown(0, c.recoveryTimeout);
    match e
    case Enter(id, at) =>
      assert {} + {id} == {id};
    case SettleFail(id, at) =>
      assert s.inFlight - {id} == {};
    case ReadState(at) =>
    case SettleOk(_, _) =>
    case Reset(_) =>
  }

  lemma {:induction false} LoneCallerPace(c: Config, events: seq<Event>)
    requires c.failureThreshold >= 1 && Legal(c, events) && LoneFailingCaller(c, events)
    ensures Paced(c, Run(c, events), Calls(c, events))
  {
    hide CoolDowns, Step;
    OneMoreCoolDown(0, c.recoveryTimeout);
    if events != [] {
      var before, e := events[..|events| - 1], events[|events| - 1];
      LoneCallerPace(c, before);
      CounterRefinesHistory(c, before);
      PaceStep(c, Run(c, before), Calls(c, before), e);
    }
  }

  /** Such a caller makes at most threshold + floor(T / recovery_timeout) calls by time T. */
  lemma LoneCallerBound(c: Config, events: seq<Event>)
    requires c.failureThreshold >= 1 && c.recoveryTimeout > 0.0 && Legal(c, events) && LoneFailingCaller(c, events)
    ensures Calls(c, events) <= c.failureThreshold + (Run(c, events).now / c.recoveryTimeout).Floor
  {
    LoneCallerPace(c, events);
    var n, now := Calls(c, events) - c.failureThreshold, Run(c, events).now;
    QuotientAtLeast(if n >= 0 then n else 0, c.recoveryTimeout, now);
  }

  lemma QuotientAtLeast(n: nat, t: real, total: real)
    requires t > 0.0 && total >= 0.0 && total >= CoolDowns(n, t)
    ensures (total / t).Floor >= n
  {
    var q := total / t;
    assert q * t == total;
    assert (q - n as real) * t >= 0.0;
    assert q >= n as real;
  }

  // ── After a trip ────────────────────────────────────────────────────────

  ghost predicate TripsAt(c: Config, events: seq<Event>, k: nat) {
    && k < |events|
    && Run(c, events[..k]).fields.state != OPEN && Run(c, events[..k + 1]).fields.state == OPEN
  }

  ghost predicate LastTrip(c: Config, events: seq<Event>, k: nat) {
    TripsAt(c, events, k) && forall i: nat :: k < i < |events| ==> !TripsAt(c, events, i)
  }

  /** A call succeeded, or somebody reset the breaker, after event `k`. */
  ghost predicate Relieved(events: seq<Event>, k: nat) {
    exists i :: k < i < |events| && (events[i].SettleOk? || events[i].Reset?)
  }

  /** Within the recovery timeout of its latest trip the breaker lets a call in exactly when some call has succeeded or
      the breaker was reset since: a success of a call that was already under way closes it at once. */
  lemma AdmissionAfterTripExactly(c: Config, events: seq<Event>, k: nat, e: Event)
    requires Legal(c, events + [e]) && LastTrip(c, events, k)
    requires e.Enter? && e.at - events[k].at < c.recoveryTimeout
    ensures Admitted(c, Run(c, events), e) <==> Relieved(events, k)
  {
    RunNext(c, events, e);
    AfterTrip(c, events, k);
  }

  lemma {:induction false} AfterTrip(c: Config, events: seq<Event>, k: nat)
    requires Legal(c, events) && LastTrip(c, events, k)
    requires Run(c, events).now - events[k].at < c.recoveryTimeout
    ensures var s := Run(c, events);
            && s.now >= events[k].at
            && if Relieved(events, k) then s.fields.state == CLOSED
               else s.fields.state == OPEN && s.fields.lastFailure >= events[k].at
  {
    var before, last := events[..|events| - 1], events[|events| - 1];
    assert events[..|events|] == events;
    var s := Run(c, before);
    if k == |before| {
      assert events[..k] == before;
    } else {
      LastTripBefore(c, events, k);
      AfterTrip(c, before, k);
      RelievedNext(events, k);
      assert !TripsAt(c, events, |before|) && events[..|before|] == before;
    }
  }

  lemma LastTripBefore(c: Config, events: seq<Event>, k: nat)
    requires LastTrip(c, events, k) && k < |events| - 1
    ensures LastTrip(c, events[..|events| - 1], k)
  {
    var before := events[..|events| - 1];
    forall i: nat | i < |before| ensures TripsAt(c, before, i) == TripsAt(c, events, i) {
      assert before[..i] == events[..i] && before[..i + 1] == events[..i + 1];
    }
  }

  lemma RelievedNext(events: seq<Event>, k: nat)
    requires k < |events| - 1
    ensures var last := events[|events| - 1];
            Relieved(events, k) <==> Relieved(events[..|events| - 1], k) || last.SettleOk? || last.Reset?
  {
    var before := events[..|events| - 1];
    if Relieved(before, k) {
      var i :| k < i < |before| && (before[i].SettleOk? || before[i].Reset?);
      assert events[i] == before[i];
    }
    if Relieved(events, k) {
      var i :| k < i < |events| && (events[i].SettleOk? || events[i].Reset?);
      assert i < |before| ==> before[i] == events[i];
    }
  }

  // ── Overlapping callers ─────────────────────────────────────────────────

  /** A failure can trip the breaker even if the threshold is not positive. */
  function FailuresToTrip(c: Config): nat {
    if c.failureThreshold >= 1 then c.failureThreshold else 1
  }

  function CoolDownTime(c: Config): real {
    if c.recoveryTimeout >= 0.0 then c.recoveryTimeout else 0.0
  }

  /** `n` callers that enter and fail, one after the other, at time 0. */
  ghost function FailInTurn(n: nat): seq<Event> {
    if n == 0 then [] else FailInTurn(n - 1) + [Enter(0, 0.0)] + [SettleFail(0, 0.0)]
  }

  ghost predicate Tripping(c: Config, s: System, n: nat) {
    && s.inFlight == {} && s.probes == {} && s.now == 0.0 && s.fields.failureCount == n && s.fields.lastFailure == 0.0
    && s.fields.state == (if n == FailuresToTrip(c) then OPEN else CLOSED)
  }

  lemma TrippingStep(c: Config, s: System, n: nat)
    requires n < FailuresToTrip(c) && Tripping(c, s, n)
    ensures var s' := Step(c, s, Enter(0, 0.0));
            Enabled(s, Enter(0, 0.0)) && Enabled(s', SettleFail(0, 0.0))
            && Tripping(c, Step(c, s', SettleFail(0, 0.0)), n + 1)
  {
    assert {0} - {0} == {};
  }

  lemma {:induction false} FailInTurnRuns(c: Config, n: nat)
    requires n <= FailuresToTrip(c)
    ensures Legal(c, FailInTurn(n)) && Tripping(c, Run(c, FailInTurn(n)), n)
  {
    if n > 0 {
      var before := FailInTurn(n - 1);
      FailInTurnRuns(c, n - 1);
      TrippingStep(c, Run(c, before), n - 1);
      hide Run, Legal, Step, Tripping, Enabled;
      RunNext(c, before, Enter(0, 0.0));
      RunNext(c, before + [Enter(0, 0.0)], SettleFail(0, 0.0));
      assert Legal(c, FailInTurn(n)) && Tripping(c, Run(c, FailInTurn(n)), n);
    }
  }

  /** `k` callers that enter when the cool-down ends, none of them waiting for another. */
  ghost function ProbeTogether(c: Config, k: nat): seq<Event> {
    if k == 0 then FailInTurn(FailuresToTrip(c)) + [ReadState(CoolDownTime(c))]
    else ProbeTogether(c, k - 1) + [Enter(k, CoolDownTime(c))]
  }

  ghost predicate Probing(c: Config, s: System, k: nat) {
    && s.fields.state == HALF_OPEN && s.now == CoolDownTime(c) && s.probes == s.inFlight
    && |s.inFlight| == k && (forall id :: id in s.inFlight ==> 1 <= id <= k)
  }

  lemma CoolDownEnds(c: Config, s: System)
    requires Tripping(c, s, FailuresToTrip(c))
    ensures Enabled(s, ReadState(CoolDownTime(c))) && Probing(c, Step(c, s, ReadState(CoolDownTime(c))), 0)
  {}

  lemma ProbingStep(c: Config, s: System, k: nat)
    requires Probing(c, s, k)
    ensures Enabled(s, Enter(k + 1, CoolDownTime(c)))
    ensures Probing(c, Step(c, s, Enter(k + 1, CoolDownTime(c))), k + 1)
  {
    assert k + 1 !in s.inFlight;
  }

  /** The documented single probe does not hold for overlapping callers: any number of them is let in at once. */
  lemma {:induction false} ProbesOverlap(c: Config, k: nat)
    ensures Legal(c, ProbeTogether(c, k)) && Probing(c, Run(c, ProbeTogether(c, k)), k)
  {
    hide Run, Legal, Step, Enabled, Probing, FailuresToTrip, CoolDownTime;
    if k == 0 {
      var before := FailInTurn(FailuresToTrip(c));
      FailInTurnRuns(c, FailuresToTrip(c));
      CoolDownEnds(c, Run(c, before));
      ProbingNext(c, before, ReadState(CoolDownTime(c)), 0);
    } else {
      var before := ProbeTogether(c, k - 1);
      ProbesOverlap(c, k - 1);
      ProbingStep(c, Run(c, before), k - 1);
      ProbingNext(c, before, Enter(k, CoolDownTime(c)), k);
    }
    assert Legal(c, ProbeTogether(c, k)) && Probing(c, Run(c, ProbeTogether(c, k)), k);
  }

  lemma ProbingNext(c: Config, before: seq<Event>, e: Event, k: nat)
    requires Legal(c, before) && Enabled(Run(c, before), e) && Probing(c, Step(c, Run(c, before), e), k)
    ensures Legal(c, before + [e]) && Probing(c, Run(c, before + [e]), k)
  {
    RunNext(c, before, e);
  }

  // ── How many probes at once ─────────────────────────────────────────────

  /** No more than `n` calls are ever between their two critical sections. */
  ghost predicate AtMostInFlight(c: Config, events: seq<Event>, n: nat) {
    forall i :: 0 <= i <= |events| ==> |Run(c, events[..i]).inFlight| <= n
  }

  ghost predicate AtMostProbes(c: Config, events: seq<Event>, m: nat) {
    forall i :: 0 <= i <= |events| ==> |Run(c, events[..i]).probes| <= m
  }

  ghost predicate OneProbeAtATime(c: Config, events: seq<Event>) {
    AtMostProbes(c, events, 1)
  }

  lemma {:induction false} ProbesAreInFlight(c: Config, events: seq<Event>)
    ensures Run(c, events).probes <= Run(c, events).inFlight
  {
    if events != [] {
      ProbesAreInFlight(c, events[..|events| - 1]);
    }
  }

  lemma InFlightOneMore(c: Config, events: seq<Event>, e: Event, n: nat)
    requires AtMostInFlight(c, events, n) && |Run(c, events + [e]).inFlight| <= n
    ensures AtMostInFlight(c, events + [e], n)
  {
    var more := events + [e];
    forall i | 0 <= i <= |more| ensures |Run(c, more[..i]).inFlight| <= n {
      if i <= |events| {
        assert more[..i] == events[..i];
      } else {
        assert more[..i] == more;
      }
    }
  }

  lemma {:induction false} FailInTurnIsNarrow(c: Config, n: nat)
    requires n <= FailuresToTrip(c)
    ensures AtMostInFlight(c, FailInTurn(n), 1)
  {
    hide AtMostInFlight, Run, Step, Legal;
    if n == 0 {
      EmptyRunIsNarrow(c);
      assert FailInTurn(0) == [];
    } else {
      FailInTurnIsNarrow(c, n - 1);
      FailInTurnRuns(c, n - 1);
      NarrowTurn(c, FailInTurn(n - 1));
      assert FailInTurn(n) == FailInTurn(n - 1) + [Enter(0, 0.0)] + [SettleFail(0, 0.0)];
    }
    assert AtMostInFlight(c, FailInTurn(n), 1);
  }

  lemma EmptyRunIsNarrow(c: Config)
    ensures AtMostInFlight(c, [], 1)
  {}

  lemma NarrowTurn(c: Config, before: seq<Event>)
    requires AtMostInFlight(c, before, 1) && Run(c, before).inFlight == {}
    ensures AtMostInFlight(c, before + [Enter(0, 0.0)] + [SettleFail(0, 0.0)], 1)
  {
    hide AtMostInFlight, Run, Step, Legal;
    var entered := before + [Enter(0, 0.0)];
    RunNext(c, before, Enter(0, 0.0));
    RunNext(c, entered, SettleFail(0, 0.0));
    EnterAndFail(c, Run(c, before));
    InFlightOneMore(c, before, Enter(0, 0.0), 1);
    InFlightOneMore(c, entered, SettleFail(0, 0.0), 1);
    assert AtMostInFlight(c, entered + [SettleFail(0, 0.0)], 1);
  }

  lemma EnterAndFail(c: Config, s: System)
    requires s.inFlight == {}
    ensures var t := Step(c, s, Enter(0, 0.0));
            |t.inFlight| <= 1 && |Step(c, t, SettleFail(0, 0.0)).inFlight| <= 1
  {
    assert {} + {0} == {0} && {0} - {0} == {};
  }

  lemma {:induction false} ProbeTogetherIsNarrow(c: Config, k: nat, n: nat)
    requires k <= n && 1 <= n
    ensures AtMostInFlight(c, ProbeTogether(c, k), n)
  {
    ProbesOverlap(c, k);
    if k == 0 {
      FailInTurnIsNarrow(c, FailuresToTrip(c));
      InFlightOneMore(c, FailInTurn(FailuresToTrip(c)), ReadState(CoolDownTime(c)), n);
    } else {
      ProbeTogetherIsNarrow(c, k - 1, n);
      InFlightOneMore(c, ProbeTogether(c, k - 1), Enter(k, CoolDownTime(c)), n);
    }
  }

  /** What the code does promise: with at most `n` calls under way at once, never more than `m` probes are, in every run,
      exactly when `n` is at most `m`. */
  lemma ProbesBoundedExactly(c: Config, n: nat, m: nat)
    ensures (forall events :: Legal(c, events) && AtMostInFlight(c, events, n) ==> AtMostProbes(c, events, m)) <==> n <= m
  {
    if n <= m {
      forall events | Legal(c, events) && AtMostInFlight(c, events, n) ensures AtMostProbes(c, events, m) {
        forall i | 0 <= i <= |events| ensures |Run(c, events[..i]).probes| <= m {
          ProbesAreInFlight(c, events[..i]);
          SubsetSize(Run(c, events[..i]).probes, Run(c, events[..i]).inFlight);
        }
      }
    } else {
      var events := ProbeTogether(c, m + 1);
      ProbesOverlap(c, m + 1);
      ProbeTogetherIsNarrow(c, m + 1, n);
      assert events[..|events|] == events;
      assert !AtMostProbes(c, events, m);
    }
  }

  /** The documented single probe holds in every run exactly when callers never overlap. */
  lemma OneProbeExactly(c: Config, n: nat)
    ensures (forall events :: Legal(c, events) && AtMostInFlight(c, events, n) ==> OneProbeAtATime(c, events)) <==> n <= 1
  {
    ProbesBoundedExactly(c, n, 1);
  }
}
