/** The alert policy of `backend/ops_monitor.py` over whole runs, with the report shapes of
    `backend/ops_checks.py` that it rests on. Times are integer microseconds. */
module OpsMonitor {
  import opened Wrappers

  // ── Reports (ops_checks) ────────────────────────────────────────────────

  datatype CheckStatus = PASSING | WARNING | CRITICAL | SKIPPED

  datatype Check = Check(id: string, status: CheckStatus)

  datatype Overall = OVERALL_OK | OVERALL_DEGRADED | OVERALL_CRITICAL

  datatype Report = Report(status: Overall, checks: seq<Check>)

  ghost predicate SomeCheck(checks: seq<Check>, s: CheckStatus) {
    exists c :: c in checks && c.status == s
  }

  ghost function Aggregated(checks: seq<Check>): Overall {
    if SomeCheck(checks, CRITICAL) then OVERALL_CRITICAL
    else if SomeCheck(checks, WARNING) then OVERALL_DEGRADED
    else OVERALL_OK
  }

  function Tally(checks: seq<Check>, s: CheckStatus): nat {
    if checks == [] then 0
    else Tally(checks[..|checks| - 1], s) + (if checks[|checks| - 1].status == s then 1 else 0)
  }

  lemma {:induction false} TallyFindsSome(checks: seq<Check>, s: CheckStatus)
    ensures Tally(checks, s) > 0 <==> SomeCheck(checks, s)
  {
    if checks != [] {
      var before, last := checks[..|checks| - 1], checks[|checks| - 1];
      TallyFindsSome(before, s);
      assert checks == before + [last];
      if SomeCheck(before, s) {
        var c :| c in before && c.status == s;
        assert c in checks;
      }
      if last.status == s {
        assert last in checks;
      }
    }
  }

  /** A tally is the number of checks in that state. */
  lemma {:induction false} TallyCounts(checks: seq<Check>, s: CheckStatus)
    ensures Tally(checks, s) == |set i | 0 <= i < |checks| && checks[i].status == s|
  {
    var of := set i | 0 <= i < |checks| && checks[i].status == s;
    if checks == [] {
      assert forall i :: i !in of;
      assert |of| == 0;
    } else {
      var before, last := checks[..|checks| - 1], |checks| - 1;
      TallyCounts(before, s);
      var fewer := set i | 0 <= i < |before| && before[i].status == s;
      assert forall i :: i in fewer <==> i in of && i != last;
      assert fewer == of - {last};
      assert last in of <==> checks[last].status == s;
    }
  }

  method AggregateStatus(checks: seq<Check>) returns (status: Overall, counts: map<CheckStatus, nat>)
    ensures status == Aggregated(checks)
    ensures status == OVERALL_CRITICAL <==> exists c :: c in checks && c.status == CRITICAL
    ensures status == OVERALL_OK <==> forall c :: c in checks ==> c.status == PASSING || c.status == SKIPPED
    ensures forall s :: s in counts && counts[s] == Tally(checks, s)
  {
    counts := map[PASSING := 0, WARNING := 0, CRITICAL := 0, SKIPPED := 0];
    forall s: CheckStatus ensures s in counts && counts[s] == Tally(checks[..0], s) {
      match s
      case PASSING =>
      case WARNING =>
      case CRITICAL =>
      case SKIPPED =>
    }
    for i := 0 to |checks|
      invariant forall s :: s in counts && counts[s] == Tally(checks[..i], s)
    {
      assert checks[..i + 1][..i] == checks[..i];
      counts := counts[checks[i].status := counts[checks[i].status] + 1];
    }
    assert checks[..|checks|] == checks;
    TallyFindsSome(checks, CRITICAL);
    TallyFindsSome(checks, WARNING);
    if counts[CRITICAL] > 0 {
      return OVERALL_CRITICAL, counts;
    }
    if counts[WARNING] > 0 {
      return OVERALL_DEGRADED, counts;
    }
    return OVERALL_OK, counts;
  }

  const DATABASE := "database"
  const MIGRATIONS := "migrations"
  const BACKUP_FRESHNESS := "backup_freshness"
  const SECRETS := "secrets"
  const EVALUATION_FAILED := "ops_checks_evaluation"

  const PAGE_CHECKS: set<string> := {DATABASE, MIGRATIONS}
  const URGENT_CHECKS: set<string> := {BACKUP_FRESHNESS, SECRETS}

  /** `_db_check`: the connectivity probe either succeeds or raises. */
  function DbCheck(probeSucceeds: bool): Check {
    Check(DATABASE, if probeSucceeds then PASSING else CRITICAL)
  }

  /** `_migrations_check`. */
  function MigrationsCheck(sideEffects: bool, driftError: bool, stale: bool): Check {
    Check(MIGRATIONS, if !sideEffects then SKIPPED else if driftError || stale then CRITICAL else PASSING)
  }

  /** What the probes find. `others` are the results of the remaining checks, or missing when one of them raises: only
      the database probe catches its own failure. */
  datatype Probes = Probes(databaseUp: bool, sideEffects: bool, driftError: bool, stale: bool, others: Option<seq<Check>>)

  function AllChecks(p: Probes): seq<Check>
    requires p.others.Some?
  {
    [DbCheck(p.databaseUp), MigrationsCheck(p.sideEffects, p.driftError, p.stale)] + p.others.value
  }

  /** `run_operational_checks`: a report over all checks, or an exception. */
  method RunOperationalChecks(p: Probes) returns (r: Option<Report>)
    ensures r == if p.others.None? then None else Some(Report(Aggregated(AllChecks(p)), AllChecks(p)))
    ensures r.Some? ==>
              && |r.value.checks| == 2 + |p.others.value| && r.value.checks[2..] == p.others.value
              && r.value.checks[0] == Check("database", if p.databaseUp then PASSING else CRITICAL)
              && r.value.checks[1].id == "migrations"
              && (r.value.checks[1].status == SKIPPED <==> !p.sideEffects)
              && (r.value.checks[1].status == PASSING <==> p.sideEffects && !p.driftError && !p.stale)
              && r.value.checks[1].status != WARNING
  {
    if p.others.None? {
      return None;
    }
    var status, counts := AggregateStatus(AllChecks(p));
    return Some(Report(status, AllChecks(p)));
  }

  function FailedEvaluationReport(): Report {
    Report(OVERALL_CRITICAL, [Check(EVALUATION_FAILED, CRITICAL)])
  }

  /** The status is aggregated from the checks, and a paging check is never in state warning. */
  ghost predicate Honest(r: Report) {
    && r.status == Aggregated(r.checks)
    && forall c :: c in r.checks && c.id in PAGE_CHECKS ==> c.status != WARNING
  }

  /** The report a tick goes by. */
  ghost function ReportOf(p: Probes): Report {
    if p.others.None? then FailedEvaluationReport() else Report(Aggregated(AllChecks(p)), AllChecks(p))
  }

  /** The remaining checks have names of their own. */
  ghost predicate Named(p: Probes) {
    p.others.Some? ==> forall c :: c in p.others.value ==> c.id !in PAGE_CHECKS
  }

  /** Both kinds of report a tick can see are honest. */
  lemma ReportsAreHonest(p: Probes)
    requires Named(p)
    ensures Honest(ReportOf(p))
  {
    if p.others.None? {
      assert FailedEvaluationReport().checks[0] in FailedEvaluationReport().checks;
    }
  }

  // ── The policy ──────────────────────────────────────────────────────────

  datatype Observation = Observation(status: Overall, failing: set<string>, alertedAt: Option<int>, critical: set<string>)

  datatype Kind = Degraded | Escalated | Changed | Reminder | Recovered

  datatype Severity = Page | Urgent | Info

  datatype Alert = Alert(kind: Kind, severity: Severity)

  predicate Unhealthy(s: Overall) { s != OVERALL_OK }

  predicate WasUnhealthy(previous: Option<Observation>) {
    previous.Some? && Unhealthy(previous.value.status)
  }

  function FailingChecks(r: Report): set<string> {
    set c | c in r.checks && (c.status == WARNING || c.status == CRITICAL) :: c.id
  }

  function CriticalChecks(r: Report): set<string> {
    set c | c in r.checks && c.status == CRITICAL :: c.id
  }

  function AlertKind(previous: Option<Observation>, status: Overall, failing: set<string>, now: int, remindAfter: int)
      : Option<Kind>
  {
    if !Unhealthy(status) then (if WasUnhealthy(previous) then Some(Recovered) else None)
    else if !WasUnhealthy(previous) then Some(Degraded)
    else if status == OVERALL_CRITICAL && previous.value.status != OVERALL_CRITICAL then Some(Escalated)
    else if failing != previous.value.failing then Some(Changed)
    else if previous.value.alertedAt.None? || now - previous.value.alertedAt.value >= remindAfter then Some(Reminder)
    else None
  }

  function PagingBefore(previous: Option<Observation>): set<string> {
    if previous.Some? then previous.value.critical * PAGE_CHECKS else {}
  }

  function SeverityOf(critical: set<string>, previous: Option<Observation>): Severity {
    if critical * PAGE_CHECKS - PagingBefore(previous) != {} then Page
    else if critical * URGENT_CHECKS != {} then Urgent
    else Info
  }

  function Observe(previous: Option<Observation>, r: Report, now: int, remindAfter: int): Observation {
    Observation(r.status, FailingChecks(r),
                if AlertKind(previous, r.status, FailingChecks(r), now, remindAfter).Some? then Some(now)
                else if previous.Some? then previous.value.alertedAt else None,
                CriticalChecks(r))
  }

  function AlertFor(previous: Option<Observation>, r: Report, now: int, remindAfter: int): Option<Alert> {
    var kind := AlertKind(previous, r.status, FailingChecks(r), now, remindAfter);
    if kind.None? then None
    else Some(Alert(kind.value, if kind.value == Recovered then Info else SeverityOf(CriticalChecks(r), previous)))
  }

  /** The module state `_memory` and the alert part of `_state`. */
  class Monitor {
    var last: Option<Observation>
    var lastRunAt: Option<int>
    var lastStatus: Option<Overall>
    var lastAlertKind: Option<Kind>
    var lastAlertAt: Option<int>

    constructor ()
      ensures last == None && lastAlertKind == None
    {
      last, lastRunAt, lastStatus, lastAlertKind, lastAlertAt := None, None, None, None, None;
    }

    /** `report` is `None` when the evaluation raised, and `readable` says whether the dispatch can query the alert
        channels. It does so outside its `try`: if it cannot, the tick raises before anything is remembered. */
    method RunOnce(report: Option<Report>, now: int, remindAfter: int, readable: bool)
        returns (sent: Option<Alert>, raised: bool)
      modifies this
      ensures var tick := Tick(if report.Some? then report.value
                               else Report(OVERALL_CRITICAL, [Check("ops_checks_evaluation", CRITICAL)]), now, readable);
              && raised == Raises(old(last), tick, remindAfter)
              && sent == SentOn(old(last), tick, remindAfter)
              && last == Remember(old(last), tick, remindAfter)
              && lastRunAt == (if raised then old(lastRunAt) else Some(now))
              && lastStatus == (if raised then old(lastStatus) else Some(tick.report.status))
              && lastAlertKind == (if sent.Some? then Some(sent.value.kind) else old(lastAlertKind))
              && lastAlertAt == (if sent.Some? then Some(now) else old(lastAlertAt))
    {
      var r := if report.Some? then report.value else FailedEvaluationReport();
      var failing, critical := FailingChecks(r), CriticalChecks(r);
      var previous := last;
      var kind := AlertKind(previous, r.status, failing, now, remindAfter);
      sent := None;
      if kind.Some? {
        if !readable {
          return None, true;
        }
        sent := Some(Alert(kind.value, if kind.value == Recovered then Info else SeverityOf(critical, previous)));
        lastAlertKind, lastAlertAt := kind, Some(now);
      }
      var alertedAt := if kind.Some? then Some(now) else if previous.Some? then previous.value.alertedAt else None;
      last := Some(Observation(r.status, failing, alertedAt, critical));
      lastRunAt, lastStatus := Some(now), Some(r.status);
      raised := false;
    }
  }

  // ── Runs ────────────────────────────────────────────────────────────────

  datatype Tick = Tick(report: Report, now: int, readable: bool)

  /** An alert is due, and the channels cannot be read. */
  predicate Raises(previous: Option<Observation>, t: Tick, remindAfter: int) {
    !t.readable && AlertFor(previous, t.report, t.now, remindAfter).Some?
  }

  function SentOn(previous: Option<Observation>, t: Tick, remindAfter: int): Option<Alert> {
    if t.readable then AlertFor(previous, t.report, t.now, remindAfter) else None
  }

  function Remember(previous: Option<Observation>, t: Tick, remindAfter: int): Option<Observation> {
    if Raises(previous, t, remindAfter) then previous else Some(Observe(previous, t.report, t.now, remindAfter))
  }

  /** The memory after all the ticks. */
  ghost function Memory(ticks: seq<Tick>, remindAfter: int): Option<Observation> {
    if ticks == [] then None
    else Remember(Memory(ticks[..|ticks| - 1], remindAfter), ticks[|ticks| - 1], remindAfter)
  }

  /** Whether the last tick raises. */
  ghost predicate LastRaises(ticks: seq<Tick>, remindAfter: int)
    requires ticks != []
  {
    Raises(Memory(ticks[..|ticks| - 1], remindAfter), ticks[|ticks| - 1], remindAfter)
  }

  /** The alert the last of the ticks sends. */
  ghost function LastAlert(ticks: seq<Tick>, remindAfter: int): Option<Alert>
    requires ticks != []
  {
    SentOn(Memory(ticks[..|ticks| - 1], remindAfter), ticks[|ticks| - 1], remindAfter)
  }

  /** All alerts sent. */
  ghost function Alerts(ticks: seq<Tick>, remindAfter: int): seq<Alert> {
    if ticks == [] then []
    else
      Alerts(ticks[..|ticks| - 1], remindAfter)
      + (if LastAlert(ticks, remindAfter).Some? then [LastAlert(ticks, remindAfter).value] else [])
  }

  /** Only the alerts that open or close an incident. */
  ghost function Edges(alerts: seq<Alert>): seq<Kind> {
    if alerts == [] then []
    else
      var kind := alerts[|alerts| - 1].kind;
      Edges(alerts[..|alerts| - 1]) + (if kind == Degraded || kind == Recovered then [kind] else [])
  }

  ghost predicate StrictlyAlternate(kinds: seq<Kind>) {
    forall i :: 0 <= i < |kinds| ==> kinds[i] == if i % 2 == 0 then Degraded else Recovered
  }

  /** Over every run, ticks that raise included, the `degraded` and `recovered` alerts sent strictly alternate, starting
      with `degraded`; their number is odd exactly when the remembered status is unhealthy. */
  lemma {:induction false} IncidentsAlternate(ticks: seq<Tick>, remindAfter: int)
    ensures StrictlyAlternate(Edges(Alerts(ticks, remindAfter)))
    ensures |Edges(Alerts(ticks, remindAfter))| % 2 == 1 <==> WasUnhealthy(Memory(ticks, remindAfter))
  {
    if ticks != [] {
      var before := ticks[..|ticks| - 1];
      IncidentsAlternate(before, remindAfter);
      var alerts, sent := Alerts(before, remindAfter), LastAlert(ticks, remindAfter);
      if sent.Some? {
        EdgesNext(alerts, sent.value);
      } else {
        assert alerts + [] == alerts;
      }
    }
  }

  lemma EdgesNext(alerts: seq<Alert>, a: Alert)
    ensures Edges(alerts + [a]) == Edges(alerts) + (if a.kind == Degraded || a.kind == Recovered then [a.kind] else [])
  {
    assert (alerts + [a])[..|alerts|] == alerts;
  }

  // ── Silence ─────────────────────────────────────────────────────────────

  /** The last alert remembered is less than `remindAfter` old. */
  predicate Recent(m: Option<Observation>, now: int, remindAfter: int) {
    m.Some? && m.value.alertedAt.Some? && now - m.value.alertedAt.value < remindAfter
  }

  /** An unhealthy tick ends with a recent alert exactly when the channels can be read on it, or the last alert was still
      recent when it began. */
  lemma SilenceExactly(ticks: seq<Tick>, remindAfter: int)
    requires remindAfter > 0 && ticks != [] && Unhealthy(ticks[|ticks| - 1].report.status)
    ensures var before, last := Memory(ticks[..|ticks| - 1], remindAfter), ticks[|ticks| - 1];
            Recent(Memory(ticks, remindAfter), last.now, remindAfter)
            <==> last.readable || Recent(before, last.now, remindAfter)
  {}

  ghost predicate NeverSilent(ticks: seq<Tick>, remindAfter: int) {
    forall n :: 0 < n <= |ticks| && Unhealthy(ticks[n - 1].report.status) ==>
      Recent(Memory(ticks[..n], remindAfter), ticks[n - 1].now, remindAfter)
  }

  /** The last of the first `n` ticks can read the channels, or begins with a recent alert. */
  ghost predicate Covered(ticks: seq<Tick>, n: int, remindAfter: int)
    requires 0 < n <= |ticks|
  {
    ticks[n - 1].readable || Recent(Memory(ticks[..n - 1], remindAfter), ticks[n - 1].now, remindAfter)
  }

  /** So no unhealthy tick of a run ends with the last alert `remindAfter` or more in the past exactly when each of them
      can read the channels or begins with a recent alert: so when the channels can always be read, and not for the run
      of one unhealthy tick that cannot. */
  lemma NeverSilentTooLong(ticks: seq<Tick>, remindAfter: int)
    requires remindAfter > 0
    ensures NeverSilent(ticks, remindAfter)
            <==> forall n :: 0 < n <= |ticks| && Unhealthy(ticks[n - 1].report.status) ==> Covered(ticks, n, remindAfter)
    ensures (forall i :: 0 <= i < |ticks| ==> ticks[i].readable) ==> NeverSilent(ticks, remindAfter)
    ensures forall t: Tick :: Unhealthy(t.report.status) && !t.readable ==> !NeverSilent([t], remindAfter)
  {
    forall n | 0 < n <= |ticks| && Unhealthy(ticks[n - 1].report.status)
      ensures Recent(Memory(ticks[..n], remindAfter), ticks[n - 1].now, remindAfter) <==> Covered(ticks, n, remindAfter)
    {
      SilenceExactly(ticks[..n], remindAfter);
      assert ticks[..n][..n - 1] == ticks[..n - 1];
    }
    forall t: Tick | Unhealthy(t.report.status) && !t.readable ensures !NeverSilent([t], remindAfter) {
      SilenceExactly([t], remindAfter);
      assert [t][..1] == [t] && [t][..0] == [];
    }
  }

  /** The ticks from `start` on are unhealthy. */
  ghost predicate Incident(ticks: seq<Tick>, start: nat) {
    start < |ticks| && forall i :: start <= i < |ticks| ==> Unhealthy(ticks[i].report.status)
  }

  ghost function AlertsSince(ticks: seq<Tick>, start: nat, remindAfter: int): nat {
    if |ticks| <= start then 0
    else
      AlertsSince(ticks[..|ticks| - 1], start, remindAfter) + (if LastAlert(ticks, remindAfter).Some? then 1 else 0)
  }

  /** While the channels cannot be read on any unhealthy tick, nothing is sent and nothing unhealthy is remembered: such
      an outage sends no `degraded`, and no `recovered` when it is over. */
  lemma {:induction false} UnreadableOutageIsUnseen(ticks: seq<Tick>, start: nat, remindAfter: int)
    requires start <= |ticks| && !WasUnhealthy(Memory(ticks[..start], remindAfter))
    requires forall i :: start <= i < |ticks| && Unhealthy(ticks[i].report.status) ==> !ticks[i].readable
    ensures Alerts(ticks, remindAfter) == Alerts(ticks[..start], remindAfter)
    ensures AlertsSince(ticks, start, remindAfter) == 0 && !WasUnhealthy(Memory(ticks, remindAfter))
  {
    if start < |ticks| {
      var before := ticks[..|ticks| - 1];
      assert before[..start] == ticks[..start];
      UnreadableOutageIsUnseen(before, start, remindAfter);
    } else {
      assert ticks[..start] == ticks;
    }
  }

  /** An incident that starts from remembered health stays unseen exactly when the channels can be read on none of its
      ticks. */
  lemma {:induction false} UnseenExactly(ticks: seq<Tick>, start: nat, remindAfter: int)
    requires Incident(ticks, start) && !WasUnhealthy(Memory(ticks[..start], remindAfter))
    ensures AlertsSince(ticks, start, remindAfter) == 0 <==> forall i :: start <= i < |ticks| ==> !ticks[i].readable
  {
    if forall i :: start <= i < |ticks| ==> !ticks[i].readable {
      UnreadableOutageIsUnseen(ticks, start, remindAfter);
    } else {
      var before := ticks[..|ticks| - 1];
      assert before[..start] == ticks[..start];
      if |ticks| == start + 1 {
        assert before == ticks[..start];
      } else if forall i :: start <= i < |before| ==> !before[i].readable {
        UnreadableOutageIsUnseen(before, start, remindAfter);
        assert ticks[|ticks| - 1].readable;
      } else {
        UnseenExactly(before, start, remindAfter);
      }
    }
  }

  // ── How many alerts one incident sends ──────────────────────────────────

  ghost predicate TimeMovesOn(ticks: seq<Tick>) {
    forall i, j :: 0 <= i <= j < |ticks| ==> ticks[i].now <= ticks[j].now
  }

  predicate SameState(a: Report, b: Report) {
    a.status == b.status && FailingChecks(a) == FailingChecks(b)
  }

  /** Ticks after `start` whose status or failing set differs from the tick before. */
  ghost function Changes(ticks: seq<Tick>, start: nat): nat {
    if |ticks| <= start + 1 then 0
    else
      Changes(ticks[..|ticks| - 1], start)
      + (if SameState(ticks[|ticks| - 2].report, ticks[|ticks| - 1].report) then 0 else 1)
  }

  /** The changes up to the last tick since `start` that did not raise. */
  ghost function ChangesRemembered(ticks: seq<Tick>, start: nat, remindAfter: int): nat {
    if |ticks| <= start then 0
    else if LastRaises(ticks, remindAfter) then ChangesRemembered(ticks[..|ticks| - 1], start, remindAfter)
    else Changes(ticks, start)
  }

  predicate Remembers(m: Option<Observation>, r: Report) {
    m.Some? && m.value.status == r.status && m.value.failing == FailingChecks(r)
  }

  /** A report that differs from what is remembered has cost a change since. */
  lemma {:induction false} DifferenceCosts(ticks: seq<Tick>, start: nat, remindAfter: int)
    requires Incident(ticks, start) && AlertsSince(ticks, start, remindAfter) > 0
    ensures ChangesRemembered(ticks, start, remindAfter)
            + (if Remembers(Memory(ticks, remindAfter), ticks[|ticks| - 1].report) then 0 else 1) <= Changes(ticks, start)
  {
    hide FailingChecks, CriticalChecks;
    if LastRaises(ticks, remindAfter) {
      var before := ticks[..|ticks| - 1];
      assert |before| > start;
      DifferenceCosts(before, start, remindAfter);
    }
  }

  ghost function Waits(n: int, remindAfter: int): int { n * remindAfter }

  lemma OneMoreWait(n: int, remindAfter: int)
    ensures Waits(n + 1, remindAfter) == Waits(n, remindAfter) + remindAfter && Waits(0, remindAfter) == 0
  {}

  /** The alerts of an incident beyond the first and the changes are reminders, each a full `remindAfter` after the alert
      before it. */
  lemma {:induction false} RemindersAreSpaced(ticks: seq<Tick>, start: nat, remindAfter: int)
    requires remindAfter > 0 && Incident(ticks, start) && TimeMovesOn(ticks)
    requires AlertsSince(ticks, start, remindAfter) > 0
    ensures WasUnhealthy(Memory(ticks, remindAfter))
    ensures var alertedAt := Memory(ticks, remindAfter).value.alertedAt;
            var reminders := AlertsSince(ticks, start, remindAfter) - 1 - ChangesRemembered(ticks, start, remindAfter);
            && alertedAt.Some? && ticks[start].now <= alertedAt.value <= ticks[|ticks| - 1].now
            && Waits(reminders, remindAfter) <= alertedAt.value - ticks[start].now
    decreases |ticks|
  {
    hide Waits, FailingChecks, CriticalChecks;
    var before := ticks[..|ticks| - 1];
    var seen := AlertsSince(before, start, remindAfter);
    if seen == 0 {
      var changes: int := ChangesRemembered(ticks, start, remindAfter);
      WaitsInOrder(0 - changes, 0, remindAfter);
      OneMoreWait(0, remindAfter);
    } else {
      RemindersAreSpaced(before, start, remindAfter);
      DifferenceCosts(before, start, remindAfter);
      assert ticks[|ticks| - 2].now <= ticks[|ticks| - 1].now;
      OneMoreReminder(ticks, start, remindAfter);
      var a: int := AlertsSince(before, start, remindAfter) - 1 - ChangesRemembered(before, start, remindAfter);
      var b: int := AlertsSince(ticks, start, remindAfter) - 1 - ChangesRemembered(ticks, start, remindAfter);
      WaitsInOrder(b, a, remindAfter);
      OneMoreWait(a, remindAfter);
      assert Memory(ticks, remindAfter).value.alertedAt
             == if LastAlert(ticks, remindAfter).Some? then Some(ticks[|ticks| - 1].now)
                else Memory(before, remindAfter).value.alertedAt;
    }
  }

  lemma OneMoreReminder(ticks: seq<Tick>, start: nat, remindAfter: int)
    requires remindAfter > 0 && Incident(ticks, start) && |ticks| > start + 1
    requires var before := ticks[..|ticks| - 1];
             && AlertsSince(before, start, remindAfter) > 0 && WasUnhealthy(Memory(before, remindAfter))
             && ChangesRemembered(before, start, remindAfter)
                + (if Remembers(Memory(before, remindAfter), before[|before| - 1].report) then 0 else 1)
                <= Changes(before, start)
    ensures var before, last := ticks[..|ticks| - 1], ticks[|ticks| - 1];
            var m := Memory(before, remindAfter).value;
            var more := AlertsSince(ticks, start, remindAfter) - ChangesRemembered(ticks, start, remindAfter)
                        - (AlertsSince(before, start, remindAfter) - ChangesRemembered(before, start, remindAfter));
            more <= 0 || (more == 1 && LastAlert(ticks, remindAfter).Some?
                          && (m.alertedAt.None? || last.now - m.alertedAt.value >= remindAfter))
  {
    hide FailingChecks, CriticalChecks;
  }

  /** An incident sends at most 1 + changes + elapsed / remind_after alerts up to its recovery. */
  lemma IncidentAlertBound(ticks: seq<Tick>, start: nat, remindAfter: int)
    requires remindAfter > 0 && Incident(ticks, start) && TimeMovesOn(ticks)
    ensures AlertsSince(ticks, start, remindAfter)
            <= 1 + Changes(ticks, start) + (ticks[|ticks| - 1].now - ticks[start].now) / remindAfter
  {
    if AlertsSince(ticks, start, remindAfter) > 0 {
      RemindersAreSpaced(ticks, start, remindAfter);
      DifferenceCosts(ticks, start, remindAfter);
      var reminders := AlertsSince(ticks, start, remindAfter) - 1 - ChangesRemembered(ticks, start, remindAfter);
      WaitsFit(reminders, remindAfter, ticks[|ticks| - 1].now - ticks[start].now);
    } else {
      WaitsFit(0, remindAfter, ticks[|ticks| - 1].now - ticks[start].now);
    }
  }

  lemma WaitsFit(n: int, remindAfter: int, elapsed: int)
    requires remindAfter > 0 && Waits(n, remindAfter) <= elapsed
    ensures n <= elapsed / remindAfter
  {
    WaitsInOrder(elapsed / remindAfter + 1, n, remindAfter);
  }

  lemma WaitsInOrder(a: int, b: int, remindAfter: int)
    requires remindAfter > 0
    ensures a <= b ==> Waits(a, remindAfter) <= Waits(b, remindAfter)
  {
    if a <= b {
      assert (b - a) * remindAfter >= 0;
    }
  }

  // ── Paging ──────────────────────────────────────────────────────────────

  /** The report of the last tick that did not raise. */
  ghost function LastRemembered(ticks: seq<Tick>, remindAfter: int): Option<Report> {
    if ticks == [] then None
    else if LastRaises(ticks, remindAfter) then LastRemembered(ticks[..|ticks| - 1], remindAfter)
    else Some(ticks[|ticks| - 1].report)
  }

  lemma {:induction false} MemoryIsOfLastRemembered(ticks: seq<Tick>, remindAfter: int)
    ensures var m, r := Memory(ticks, remindAfter), LastRemembered(ticks, remindAfter);
            && (m.None? <==> r.None?)
            && (r.Some? ==> && (exists i :: 0 <= i < |ticks| && ticks[i].report == r.value)
                            && m.value.status == r.value.status && m.value.failing == FailingChecks(r.value)
                            && m.value.critical == CriticalChecks(r.value))
  {
    hide FailingChecks, CriticalChecks;
    if ticks != [] {
      var before := ticks[..|ticks| - 1];
      MemoryIsOfLastRemembered(before, remindAfter);
      if LastRaises(ticks, remindAfter) && LastRemembered(before, remindAfter).Some? {
        var i :| 0 <= i < |before| && before[i].report == LastRemembered(before, remindAfter).value;
        assert ticks[i].report == before[i].report;
      }
    }
  }

  ghost function PagingCritical(r: Report): set<string> {
    CriticalChecks(r) * PAGE_CHECKS
  }

  /** The critical paging checks of the last tick that did not raise. */
  ghost function PagingRemembered(ticks: seq<Tick>, remindAfter: int): set<string> {
    var r := LastRemembered(ticks, remindAfter);
    if r.None? then {} else PagingCritical(r.value)
  }

  ghost predicate LastPages(ticks: seq<Tick>, remindAfter: int)
    requires ticks != []
  {
    LastAlert(ticks, remindAfter).Some? && LastAlert(ticks, remindAfter).value.severity == Page
  }

  /** A page goes out on exactly those ticks that can read the channels and on which the set of critical paging checks
      gains a member over the last tick that did not raise, although severity is looked at only when an alert is due. */
  lemma PagingIsExact(ticks: seq<Tick>, remindAfter: int)
    requires ticks != [] && forall i :: 0 <= i < |ticks| ==> Honest(ticks[i].report)
    ensures LastPages(ticks, remindAfter)
            <==> && ticks[|ticks| - 1].readable
                 && PagingCritical(ticks[|ticks| - 1].report)
                    - PagingRemembered(ticks[..|ticks| - 1], remindAfter) != {}
  {
    var before, r := ticks[..|ticks| - 1], ticks[|ticks| - 1].report;
    var previous, was := Memory(before, remindAfter), LastRemembered(before, remindAfter);
    MemoryIsOfLastRemembered(before, remindAfter);
    assert PagingBefore(previous) == PagingRemembered(before, remindAfter);
    if gained :| gained in PagingCritical(r) - PagingRemembered(before, remindAfter) {
      GainIsAnnounced(previous, was, r, gained);
    } else {
      assert PagingCritical(r) - PagingRemembered(before, remindAfter) == {};
    }
  }

  /** A critical paging check that was not critical before is a reason for an alert. */
  lemma GainIsAnnounced(previous: Option<Observation>, was: Option<Report>, r: Report, gained: string)
    requires Honest(r) && (was.Some? ==> Honest(was.value)) && (previous.None? <==> was.None?)
    requires was.Some? ==> previous.value.status == was.value.status
                           && previous.value.failing == FailingChecks(was.value)
    requires gained in PagingCritical(r) && (was.Some? ==> gained !in PagingCritical(was.value))
    ensures forall now, remindAfter :: AlertKind(previous, r.status, FailingChecks(r), now, remindAfter).Some?
    ensures Unhealthy(r.status)
  {
    var c :| c in r.checks && c.status == CRITICAL && c.id == gained;
    assert SomeCheck(r.checks, CRITICAL);
    assert gained in FailingChecks(r);
    if was.Some? {
      NotFailingBefore(was.value, gained);
    }
  }

  /** A paging check that was not critical was not failing either. */
  lemma NotFailingBefore(r: Report, id: string)
    requires Honest(r) && id in PAGE_CHECKS && id !in CriticalChecks(r)
    ensures id !in FailingChecks(r)
  {}

  // ── Every alert, by what was reported ───────────────────────────────────

  ghost predicate Fails(r: Report, id: string) {
    exists c :: c in r.checks && c.id == id && (c.status == WARNING || c.status == CRITICAL)
  }

  ghost predicate IsCritical(r: Report, id: string) {
    exists c :: c in r.checks && c.id == id && c.status == CRITICAL
  }

  ghost predicate Sick(r: Report) {
    exists id :: Fails(r, id)
  }

  lemma ReportSets(r: Report)
    ensures forall id :: id in FailingChecks(r) <==> Fails(r, id)
    ensures forall id :: id in CriticalChecks(r) <==> IsCritical(r, id)
    ensures Honest(r) ==> (Unhealthy(r.status) <==> Sick(r))
    ensures Honest(r) ==> (r.status == OVERALL_CRITICAL <==> exists id :: IsCritical(r, id))
  {
    if SomeCheck(r.checks, CRITICAL) {
      var c :| c in r.checks && c.status == CRITICAL;
      assert IsCritical(r, c.id) && Fails(r, c.id);
    } else if SomeCheck(r.checks, WARNING) {
      var c :| c in r.checks && c.status == WARNING;
      assert Fails(r, c.id);
    }
  }

  /** When the latest alert was sent. */
  ghost function LastSentAt(ticks: seq<Tick>, remindAfter: int): Option<int> {
    if ticks == [] then None
    else if LastAlert(ticks, remindAfter).Some? then Some(ticks[|ticks| - 1].now)
    else LastSentAt(ticks[..|ticks| - 1], remindAfter)
  }

  lemma {:induction false} MemoryKeepsLastSent(ticks: seq<Tick>, remindAfter: int)
    ensures var m := Memory(ticks, remindAfter);
            LastSentAt(ticks, remindAfter) == if m.Some? then m.value.alertedAt else None
  {
    hide FailingChecks, CriticalChecks;
    if ticks != [] {
      MemoryKeepsLastSent(ticks[..|ticks| - 1], remindAfter);
    }
  }

  /** The kind of alert called for, by the report of this tick, that of the last tick which did not raise, and the time of
      the latest alert. */
  ghost predicate CallsFor(was: Option<Report>, r: Report, sentAt: Option<int>, now: int, remindAfter: int, kind: Kind) {
    var wasSick := was.Some? && Sick(was.value);
    var worse := wasSick && (exists id :: IsCritical(r, id)) && forall id :: !IsCritical(was.value, id);
    var differs := wasSick && exists id :: Fails(r, id) != Fails(was.value, id);
    match kind
    case Recovered => !Sick(r) && wasSick
    case Degraded => Sick(r) && !wasSick
    case Escalated => Sick(r) && worse
    case Changed => Sick(r) && wasSick && !worse && differs
    case Reminder => Sick(r) && wasSick && !worse && !differs && (sentAt.None? || now >= sentAt.value + remindAfter)
  }

  /** Over every run: an alert of a kind is sent exactly on the ticks that can read the channels and call for that kind. */
  lemma KindsAreExact(ticks: seq<Tick>, remindAfter: int, kind: Kind)
    requires ticks != [] && forall i :: 0 <= i < |ticks| ==> Honest(ticks[i].report)
    ensures var before, last := ticks[..|ticks| - 1], ticks[|ticks| - 1];
            LastAlert(ticks, remindAfter).Some? && LastAlert(ticks, remindAfter).value.kind == kind
            <==> last.readable && CallsFor(LastRemembered(before, remindAfter), last.report,
                                           LastSentAt(before, remindAfter), last.now, remindAfter, kind)
  {
    var before, r := ticks[..|ticks| - 1], ticks[|ticks| - 1].report;
    var was := LastRemembered(before, remindAfter);
    MemoryIsOfLastRemembered(before, remindAfter);
    MemoryKeepsLastSent(before, remindAfter);
    ReportSets(r);
    if was.Some? {
      ReportSets(was.value);
      hide FailingChecks, CriticalChecks, Sick, Fails, IsCritical, Memory, LastRemembered, LastSentAt;
      SameSets(FailingChecks(r), FailingChecks(was.value), r, was.value);
    }
  }

  lemma SameSets(a: set<string>, b: set<string>, r: Report, was: Report)
    requires forall id :: id in a <==> Fails(r, id)
    requires forall id :: id in b <==> Fails(was, id)
    ensures a != b <==> exists id :: Fails(r, id) != Fails(was, id)
  {
    hide Fails;
    if forall id :: Fails(r, id) == Fails(was, id) {
      assert a == b;
    }
  }

  /** And how loud it is: a page as above; urgent if it is none and backups or secrets are critical; else, and for every
      recovery, for information. */
  lemma SeveritiesAreExact(ticks: seq<Tick>, remindAfter: int)
    requires ticks != [] && LastAlert(ticks, remindAfter).Some?
    requires forall i :: 0 <= i < |ticks| ==> Honest(ticks[i].report)
    ensures var alert, r := LastAlert(ticks, remindAfter).value, ticks[|ticks| - 1].report;
            var was := LastRemembered(ticks[..|ticks| - 1], remindAfter);
            var page := exists id :: (id == "database" || id == "migrations") && IsCritical(r, id)
                                     && (was.Some? ==> !IsCritical(was.value, id));
            alert.severity == if page then Page
                              else if alert.kind != Recovered && (IsCritical(r, "backup_freshness") || IsCritical(r, "secrets"))
                              then Urgent else Info
  {
    var before, r := ticks[..|ticks| - 1], ticks[|ticks| - 1].report;
    var previous, was := Memory(before, remindAfter), LastRemembered(before, remindAfter);
    MemoryIsOfLastRemembered(before, remindAfter);
    ReportSets(r);
    if was.Some? {
      ReportSets(was.value);
    }
    hide FailingChecks, CriticalChecks, Memory, LastRemembered, Fails, IsCritical;
    assert PAGE_CHECKS == {"database", "migrations"} && URGENT_CHECKS == {"backup_freshness", "secrets"};
    var gained := CriticalChecks(r) * PAGE_CHECKS - PagingBefore(previous);
    assert forall id :: id in gained <==> (id == "database" || id == "migrations") && IsCritical(r, id)
                                          && (was.Some? ==> !IsCritical(was.value, id));
    assert forall id :: id in CriticalChecks(r) * URGENT_CHECKS <==>
                          (id == "backup_freshness" || id == "secrets") && IsCritical(r, id);
    NothingCriticalWhenWell(r);
  }

  lemma NothingCriticalWhenWell(r: Report)
    ensures forall id :: IsCritical(r, id) ==> Fails(r, id)
    ensures Honest(r) && !Unhealthy(r.status) ==> forall id :: !IsCritical(r, id)
  {}

  // ── From the probes to the page ─────────────────────────────────────────

  /** What a tick can know about the two paging checks: nothing when its evaluation raised. */
  function SeenOutages(p: Probes): set<string> {
    if p.others.None? then {}
    else
      (if p.databaseUp then {} else {DATABASE})
      + (if p.sideEffects && (p.driftError || p.stale) then {MIGRATIONS} else {})
  }

  lemma ReportShowsOutages(p: Probes)
    requires Named(p)
    ensures PagingCritical(ReportOf(p)) == SeenOutages(p)
  {
    var checks, critical := ReportOf(p).checks, CriticalChecks(ReportOf(p));
    if p.others.None? {
      assert checks == [Check(EVALUATION_FAILED, CRITICAL)];
      assert forall id :: id in critical ==> id == EVALUATION_FAILED;
    } else {
      assert checks[0] == DbCheck(p.databaseUp) && checks[1] == MigrationsCheck(p.sideEffects, p.driftError, p.stale);
      assert checks[0] in checks && checks[1] in checks;
      forall c | c in checks && c.id in PAGE_CHECKS ensures c == checks[0] || c == checks[1] {
        assert c in p.others.value || c == checks[0] || c == checks[1];
      }
    }
  }

  /** A tick of the monitor, by what its probes find and whether its dispatch can read the channels. */
  datatype Look = Look(probes: Probes, now: int, readable: bool)

  ghost function TicksOf(looks: seq<Look>): (ticks: seq<Tick>)
    ensures |ticks| == |looks|
    ensures forall i :: 0 <= i < |looks| ==>
              ticks[i] == Tick(ReportOf(looks[i].probes), looks[i].now, looks[i].readable)
  {
    seq(|looks|, i requires 0 <= i < |looks| => Tick(ReportOf(looks[i].probes), looks[i].now, looks[i].readable))
  }

  ghost predicate Pages(looks: seq<Look>, remindAfter: int)
    requires looks != []
  {
    LastPages(TicksOf(looks), remindAfter)
  }

  /** The outages that the last look which did not raise has seen. */
  ghost function OutagesRemembered(looks: seq<Look>, remindAfter: int): set<string> {
    if looks == [] then {}
    else if LastRaises(TicksOf(looks), remindAfter) then OutagesRemembered(looks[..|looks| - 1], remindAfter)
    else SeenOutages(looks[|looks| - 1].probes)
  }

  lemma {:induction false} RememberedOutages(looks: seq<Look>, remindAfter: int)
    requires forall i :: 0 <= i < |looks| ==> Named(looks[i].probes)
    ensures PagingRemembered(TicksOf(looks), remindAfter) == OutagesRemembered(looks, remindAfter)
  {
    hide PagingCritical, SeenOutages, ReportOf;
    if looks != [] {
      var before := looks[..|looks| - 1];
      assert TicksOf(looks)[..|looks| - 1] == TicksOf(before);
      RememberedOutages(before, remindAfter);
      ReportShowsOutages(looks[|looks| - 1].probes);
    }
  }

  /** In terms of the probes: a tick pages exactly when it can read the channels and sees an outage that the last tick
      which did not raise had not seen. */
  lemma PagingFromProbes(looks: seq<Look>, remindAfter: int)
    requires looks != [] && forall i :: 0 <= i < |looks| ==> Named(looks[i].probes)
    ensures Pages(looks, remindAfter)
            <==> && looks[|looks| - 1].readable
                 && SeenOutages(looks[|looks| - 1].probes)
                    - OutagesRemembered(looks[..|looks| - 1], remindAfter) != {}
  {
    var ticks, before := TicksOf(looks), looks[..|looks| - 1];
    forall i | 0 <= i < |ticks| ensures Honest(ticks[i].report) {
      ReportsAreHonest(looks[i].probes);
    }
    hide Honest, ReportOf, PagingCritical, SeenOutages, LastPages, PagingRemembered, OutagesRemembered;
    PagingIsExact(ticks, remindAfter);
    ReportShowsOutages(looks[|looks| - 1].probes);
    assert ticks[..|ticks| - 1] == TicksOf(before);
    RememberedOutages(before, remindAfter);
  }

  /** So a database that is down, and was not seen down by the last tick that did not raise, pages exactly when the
      evaluation completes and the channels can be read. Both may fail for the same reason, the database being down. */
  lemma NewOutagePagesExactly(looks: seq<Look>, remindAfter: int)
    requires looks != [] && forall i :: 0 <= i < |looks| ==> Named(looks[i].probes)
    requires !looks[|looks| - 1].probes.databaseUp
    requires DATABASE !in OutagesRemembered(looks[..|looks| - 1], remindAfter)
    ensures Pages(looks, remindAfter) <==> looks[|looks| - 1].probes.others.Some? && looks[|looks| - 1].readable
  {
    PagingFromProbes(looks, remindAfter);
    var seen, known := SeenOutages(looks[|looks| - 1].probes), OutagesRemembered(looks[..|looks| - 1], remindAfter);
    if looks[|looks| - 1].probes.others.Some? {
      assert DATABASE in seen - known;
    } else {
      assert seen - known == {};
    }
  }
}
