/** The enrichment queue of `backend/enrichment_worker.py`: any number of workers that each claim an entity in
    two steps (a SELECT, then a guarded UPDATE), bulk re-queueing, the startup reset, and the writes to the
    status column that other parts of the backend make without a claim. */
module ClaimProtocol {
  import opened Sets
  import opened Wrappers

  /** The column is a free text; `OTHER` stands for every value the queue does not know. */
  datatype Status = NONE | PENDING | PROCESSING | COMPLETED | FAILED | OTHER

  // ── The statements on the status column ─────────────────────────────────

  function Requeued(status: map<int, Status>, ids: set<int>): map<int, Status> {
    map e | e in status :: if e in ids && (status[e] == NONE || status[e] == FAILED) then PENDING else status[e]
  }

  predicate Requeueable(status: map<int, Status>, e: int) {
    e in status && (status[e] == NONE || status[e] == FAILED)
  }

  function RequeueableRows(status: map<int, Status>): set<int> {
    set e | e in status && Requeueable(status, e)
  }

  function Window(order: seq<int>, skip: nat, limit: nat): seq<int> {
    if skip >= |order| then []
    else if |order| - skip <= limit then order[skip..]
    else order[skip..skip + limit]
  }

  lemma WindowIsRequeueable(status: map<int, Status>, skip: nat, limit: nat)
    ensures var selected := Window(Ascending(RequeueableRows(status)), skip, limit);
            forall i :: 0 <= i < |selected| ==> Requeueable(status, selected[i])
  {
    var rows := RequeueableRows(status);
    var order := Ascending(rows);
    AscendingIsSorted(rows);
    forall i | 0 <= i < |order| ensures Requeueable(status, order[i]) {
      assert order[i] in order && order[i] in rows;
    }
  }

  /** The rows in front of `e` that the query would return. */
  ghost function InFront(status: map<int, Status>, e: int): set<int> {
    set f | f in status && (status[f] == NONE || status[f] == FAILED) && f < e
  }

  /** A none or failed row that at least `skip`, and fewer than `skip + limit`, such rows with smaller ids precede. */
  ghost predicate PickedByRank(status: map<int, Status>, skip: nat, limit: nat, e: int) {
    && e in status && (status[e] == NONE || status[e] == FAILED)
    && skip <= |InFront(status, e)| < skip + limit
  }

  lemma {:induction false} AscendingRank(s: set<int>, i: nat)
    requires i < |Ascending(s)|
    ensures |set f | f in s && f < Ascending(s)[i]| == i
  {
    AscendingIsSorted(s);
    var order := Ascending(s);
    assert order[i] in order;
    var m, tail := Least(s), Ascending(s - {Least(s)});
    assert order == [m] + tail;
    var front := set f | f in s && f < order[i];
    if i == 0 {
      assert forall f :: f !in front;
      assert front == {};
    } else {
      AscendingRank(s - {m}, i - 1);
      var rest := set f | f in s - {m} && f < tail[i - 1];
      assert tail[i - 1] == order[i] && order[0] < order[i];
      assert forall f :: f in rest <==> f in front && f != m;
      assert rest == front - {m} && m in front;
    }
  }

  lemma WindowByRank(status: map<int, Status>, skip: nat, limit: nat)
    ensures var selected := Window(Ascending(RequeueableRows(status)), skip, limit);
            && (forall e :: e in selected <==> PickedByRank(status, skip, limit, e))
            && forall i, j :: 0 <= i < j < |selected| ==> selected[i] < selected[j]
  {
    var rows := RequeueableRows(status);
    var order, selected := Ascending(rows), Window(Ascending(rows), skip, limit);
    AscendingIsSorted(rows);
    assert forall i :: 0 <= i < |selected| ==> skip + i < |order| && i < limit && selected[i] == order[skip + i];
    forall e ensures e in selected <==> PickedByRank(status, skip, limit, e) {
      if e in rows {
        assert e in order;
        var i :| 0 <= i < |order| && order[i] == e;
        RankOf(status, i);
        assert skip <= i < skip + limit ==> selected[i - skip] == e;
        if e in selected {
          var j :| 0 <= j < |selected| && selected[j] == e;
          assert order[skip + j] == order[i];
          assert skip + j == i;
        }
      }
    }
  }

  lemma RankOf(status: map<int, Status>, i: nat)
    requires i < |Ascending(RequeueableRows(status))|
    ensures |InFront(status, Ascending(RequeueableRows(status))[i])| == i
  {
    var rows := RequeueableRows(status);
    var e := Ascending(rows)[i];
    AscendingRank(rows, i);
    var front := set f | f in rows && f < e;
    assert forall f :: f in front <==> f in InFront(status, e);
    assert front == InFront(status, e);
  }

  function AllPending(status: map<int, Status>, ids: set<int>): map<int, Status> {
    map e | e in status :: if e in ids then PENDING else status[e]
  }

  /** `POST /entities/bulk-update` and `PUT /entities/{id}` can write any status to any rows. */
  function Overwritten(status: map<int, Status>, ids: set<int>, to: Status): map<int, Status> {
    map e | e in status :: if e in ids then to else status[e]
  }

  function Without(status: map<int, Status>, ids: set<int>): map<int, Status> {
    map e | e in status && e !in ids :: status[e]
  }

  /** What the bulk-ids endpoint does: the named rows become pending, completed ones only if forced. */
  function Named(status: map<int, Status>, ids: set<int>, force: bool): map<int, Status> {
    map e | e in status :: if e in ids && (force || status[e] != COMPLETED) then PENDING else status[e]
  }

  function SetIn(status: map<int, Status>, ids: set<int>): set<int> {
    set e | e in ids && e in status
  }

  /** The named rows it leaves alone. */
  function Passed(status: map<int, Status>, ids: set<int>, force: bool): set<int> {
    set e | e in SetIn(status, ids) && !force && status[e] == COMPLETED
  }

  function Released(status: map<int, Status>): map<int, Status> {
    map e | e in status :: if status[e] == PROCESSING then PENDING else status[e]
  }

  function Stale(status: map<int, Status>): set<int> {
    set e | e in status && status[e] == PROCESSING
  }

  function SetOf(ids: seq<int>): set<int> {
    set e | e in ids
  }

  class StatusTable {
    var status: map<int, Status>

    /** `SELECT ... WHERE status = 'pending'`, first row: some pending entity, if there is one. */
    method SelectPending() returns (candidate: Option<int>)
      ensures candidate.Some? ==> candidate.value in status && status[candidate.value] == PENDING
      ensures candidate.None? ==> forall e :: e in status ==> status[e] != PENDING
    {
      if e :| e in status && status[e] == PENDING {
        return Some(e);
      }
      return None;
    }

    /** The guarded UPDATE; the result is whether a row matched. */
    method UpdateIfPending(e: int) returns (claimed: bool)
      modifies this
      ensures claimed <==> e in old(status) && old(status)[e] == PENDING
      ensures status == if claimed then old(status)[e := PROCESSING] else old(status)
    {
      claimed := e in status && status[e] == PENDING;
      if claimed {
        status := status[e := PROCESSING];
      }
    }

    /** `_atomic_claim_next` when nobody interferes between its two statements. */
    method AtomicClaimNext() returns (claimed: Option<int>)
      modifies this
      ensures claimed.Some? ==> claimed.value in old(status) && old(status)[claimed.value] == PENDING
                                && status == old(status)[claimed.value := PROCESSING]
      ensures claimed.None? ==> status == old(status) && forall e :: e in status ==> status[e] != PENDING
    {
      var candidate := SelectPending();
      if candidate.None? {
        return None;
      }
      var matched := UpdateIfPending(candidate.value);
      if !matched {
        return None;
      }
      return candidate;
    }

    method ResetStaleProcessingRecords() returns (count: nat)
      modifies this
      ensures status == Released(old(status)) && count == |Stale(old(status))|
      ensures forall e :: e in status <==> e in old(status)
      ensures forall e :: e in status ==>
                status[e] == if old(status)[e] == PROCESSING then PENDING else old(status)[e]
    {
      count := |Stale(status)|;
      status := Released(status);
    }

    /** The query of `trigger_enrichment_bulk`: ordered by id, then OFFSET and LIMIT. */
    method SelectForBulk(skip: nat, limit: nat) returns (selected: seq<int>)
      ensures selected == Window(Ascending(RequeueableRows(status)), skip, limit)
      ensures forall e :: e in selected <==> PickedByRank(status, skip, limit, e)
      ensures forall i, j :: 0 <= i < j < |selected| ==> selected[i] < selected[j]
    {
      WindowByRank(status, skip, limit);
      var order := Sorted(RequeueableRows(status));
      return Window(order, skip, limit);
    }

    /** Its loop: the rows become pending, whatever their status is by now. */
    method WritePending(selected: seq<int>) returns (queued: seq<int>)
      requires forall i :: 0 <= i < |selected| ==> selected[i] in status
      modifies this
      ensures status == AllPending(old(status), SetOf(selected)) && queued == selected
      ensures forall e :: e in status <==> e in old(status)
      ensures forall e :: e in status ==> status[e] == if e in selected then PENDING else old(status)[e]
    {
      ghost var before := status;
      queued := [];
      for i := 0 to |selected|
        invariant queued == selected[..i]
        invariant forall e :: e in status <==> e in before
        invariant forall e :: e in before ==> status[e] == if e in selected[..i] then PENDING else before[e]
      {
        assert selected[..i + 1] == selected[..i] + [selected[i]];
        status := status[selected[i] := PENDING];
        queued := queued + [selected[i]];
      }
      assert selected[..|selected|] == selected;
      ghost var after := AllPending(before, SetOf(selected));
      forall e | e in before ensures status[e] == after[e] {
        assert e in SetOf(selected) <==> e in selected;
      }
      assert forall e :: e in status <==> e in after;
      assert status == after;
    }

    /** `trigger_enrichment_bulk` when nothing comes between its read and its write. */
    method TriggerEnrichmentBulk(skip: nat, limit: nat) returns (queued: seq<int>)
      modifies this
      ensures queued == Window(Ascending(RequeueableRows(old(status))), skip, limit)
      ensures status == Requeued(old(status), SetOf(queued))
      ensures forall e :: e in queued <==> PickedByRank(old(status), skip, limit, e)
      ensures forall e :: e in status <==> e in old(status)
      ensures forall e :: e in status ==> status[e] == if e in queued then PENDING else old(status)[e]
    {
      ghost var before := status;
      var selected := SelectForBulk(skip, limit);
      WindowIsRequeueable(before, skip, limit);
      WindowByRank(before, skip, limit);
      queued := WritePending(selected);
      SelectedOnly(before, selected);
    }

    /** `enrich_bulk_by_ids` (backend/routers/entities.py:553-575), without a look at who works on the rows. */
    method EnrichBulkByIds(ids: set<int>, force: bool) returns (queued: nat, skipped: nat)
      modifies this
      ensures status == Named(old(status), ids, force)
      ensures forall e :: e in status <==> e in old(status)
      ensures forall e :: e in status ==>
                status[e] == if e in ids && (force || old(status)[e] != COMPLETED) then PENDING else old(status)[e]
      ensures queued + skipped == |SetIn(old(status), ids)|
      ensures skipped == |Passed(old(status), ids, force)|
    {
      ghost var before := status;
      ghost var all, done := SetIn(before, ids), {};
      var rest := SetIn(status, ids);
      queued, skipped := 0, 0;
      NothingNamed(before, force);
      while rest != {}
        invariant done !! rest && forall e :: e in all <==> e in done || e in rest
        invariant status == Named(before, done, force)
        invariant skipped == |Passed(before, done, force)| && queued + skipped == |done|
        decreases rest
      {
        SomeMember(rest);
        var e :| e in rest;
        assert e in all;
        NamedOneMore(before, done, e, force);
        if !force && status[e] == COMPLETED {
          skipped := skipped + 1;
        } else {
          status := status[e := PENDING];
          queued := queued + 1;
        }
        rest, done := rest - {e}, done + {e};
      }
      NamedAll(before, ids, done, force);
    }
  }

  lemma NothingNamed(status: map<int, Status>, force: bool)
    ensures Named(status, {}, force) == status && Passed(status, {}, force) == {}
  {
    var named, passed := Named(status, {}, force), Passed(status, {}, force);
    assert forall e :: e in named <==> e in status;
    assert named == status;
    assert forall e :: e !in passed;
    assert passed == {};
  }

  lemma NamedOneMore(status: map<int, Status>, done: set<int>, e: int, force: bool)
    requires e in status && e !in done
    ensures var left, now, next := !force && status[e] == COMPLETED, Named(status, done, force), Named(status, done + {e}, force);
            && e in now && now[e] == status[e]
            && next == (if left then now else now[e := PENDING])
            && |Passed(status, done + {e}, force)| == |Passed(status, done, force)| + (if left then 1 else 0)
  {
    var now, next := Named(status, done, force), Named(status, done + {e}, force);
    var left := !force && status[e] == COMPLETED;
    var expected := if left then now else now[e := PENDING];
    assert forall x :: x in next <==> x in expected;
    assert next == expected;
    var passed, more := Passed(status, done, force), Passed(status, done + {e}, force);
    var grown := if left then passed + {e} else passed;
    assert forall x :: x in more <==> x in grown;
    assert more == grown && e !in passed;
  }

  lemma NamedAll(status: map<int, Status>, ids: set<int>, done: set<int>, force: bool)
    requires forall e :: e in done <==> e in SetIn(status, ids)
    ensures Named(status, done, force) == Named(status, ids, force)
    ensures Passed(status, done, force) == Passed(status, ids, force) && done == SetIn(status, ids)
  {
    var a, b := Named(status, done, force), Named(status, ids, force);
    forall e | e in status ensures a[e] == b[e] {
      assert e in done <==> e in SetIn(status, ids);
    }
    assert forall e :: e in a <==> e in b;
    assert a == b;
    var p, q := Passed(status, done, force), Passed(status, ids, force);
    forall e ensures e in p <==> e in q {
      assert e in done <==> e in SetIn(status, ids);
    }
    assert p == q;
    var all := SetIn(status, ids);
    assert forall e :: e in done <==> e in all;
    assert done == all;
  }

  lemma SelectedOnly(status: map<int, Status>, selected: seq<int>)
    requires forall i :: 0 <= i < |selected| ==> Requeueable(status, selected[i])
    ensures AllPending(status, SetOf(selected)) == Requeued(status, SetOf(selected))
  {
    forall e | e in SetOf(selected) ensures Requeueable(status, e) {
      var i :| 0 <= i < |selected| && selected[i] == e;
    }
  }

  /** `_next_batch_state`: the new running count, and the batch size to announce when the queue drains. */
  function NextBatchState(claimed: bool, processed: nat): (nat, Option<nat>) {
    if claimed then (processed + 1, None)
    else if processed > 0 then (0, Some(processed))
    else (0, None)
  }

  // ── Many workers ────────────────────────────────────────────────────────

  datatype Position = Idle | Chosen(candidate: int) | Working(entity: int)

  /** `running` is `processed_since_idle`; `announced` adds up the batches announced; `ticks` counts the
      worker's turns that ended with a claimed entity. */
  datatype Worker = Worker(position: Position, running: nat, announced: nat, ticks: nat)

  datatype System = System(status: map<int, Status>, workers: map<int, Worker>)

  /** `Bulk` is the guarded bulk write. `BulkIds`, `Overwrite` and `Remove` look at no claim: the bulk-ids endpoint, what
      else writes any status (the update endpoints, scrapers, merges, the single-record endpoint, requeueing scripts),
      and deletions. */
  datatype Step =
    | Add(e: int, pending: bool)
    | Select(w: int, e: int)
    | SelectNone(w: int)
    | Update(w: int)
    | Finish(w: int, ok: bool)
    | Raise(w: int)
    | Bulk(ids: set<int>)
    | BulkIds(ids: set<int>, force: bool)
    | Overwrite(ids: set<int>, to: Status)
    | Remove(ids: set<int>)
    | Restart

  function Tick(w: Worker, claimed: bool): Worker {
    var (running, batch) := NextBatchState(claimed, w.running);
    Worker(Idle, running, w.announced + (if batch.Some? then batch.value else 0), w.ticks + (if claimed then 1 else 0))
  }

  ghost predicate Enabled(s: System, a: Step) {
    match a
    case Add(e, _) => e !in s.status
    case Select(w, e) => w in s.workers && s.workers[w].position == Idle && e in s.status && s.status[e] == PENDING
    case SelectNone(w) =>
      w in s.workers && s.workers[w].position == Idle && forall e :: e in s.status ==> s.status[e] != PENDING
    case Update(w) => w in s.workers && s.workers[w].position.Chosen?
    case Finish(w, _) => w in s.workers && s.workers[w].position.Working?
    case Raise(w) => w in s.workers && s.workers[w].position.Working?
    case Bulk(_) => true
    case BulkIds(_, _) => true
    case Overwrite(_, _) => true
    case Remove(_) => true
    case Restart => true
  }

  ghost function After(s: System, a: Step): System
    requires Enabled(s, a)
  {
    match a
    case Add(e, pending) => s.(status := s.status[e := if pending then PENDING else NONE])
    case Select(w, e) => s.(workers := s.workers[w := s.workers[w].(position := Chosen(e))])
    case SelectNone(w) => s.(workers := s.workers[w := Tick(s.workers[w], false)])
    case Update(w) =>
      var e := s.workers[w].position.candidate;
      if e in s.status && s.status[e] == PENDING
      then System(s.status[e := PROCESSING], s.workers[w := s.workers[w].(position := Working(e))])
      else s.(workers := s.workers[w := Tick(s.workers[w], false)])
    case Finish(w, ok) =>
      var e := s.workers[w].position.entity;
      System(if e in s.status then s.status[e := if ok then COMPLETED else FAILED] else s.status,
             s.workers[w := Tick(s.workers[w], true)])
    case Raise(w) => s.(workers := s.workers[w := s.workers[w].(position := Idle)])
    case Bulk(ids) => s.(status := Requeued(s.status, ids))
    case BulkIds(ids, force) => s.(status := Named(s.status, ids, force))
    case Overwrite(ids, to) => s.(status := Overwritten(s.status, ids, to))
    case Remove(ids) => s.(status := Without(s.status, ids))
    case Restart => System(Released(s.status), map w | w in s.workers :: Worker(Idle, 0, 0, 0))
  }

  /** A step that is not possible in a state leaves it as it is. */
  ghost function Next(s: System, a: Step): System {
    if Enabled(s, a) then After(s, a) else s
  }

  ghost function Run(start: System, steps: seq<Step>): System {
    if steps == [] then start else Next(Run(start, steps[..|steps| - 1]), steps[|steps| - 1])
  }

  // ── Exclusive claims ────────────────────────────────────────────────────

  ghost predicate Holds(s: System, w: int, e: int) {
    w in s.workers && s.workers[w].position == Working(e)
  }

  /** A held entity is processing, unless it was deleted, and no two workers hold the same one. */
  ghost predicate Exclusive(s: System) {
    && (forall w, e :: Holds(s, w, e) && e in s.status ==> s.status[e] == PROCESSING)
    && (forall v, w, e :: Holds(s, v, e) && Holds(s, w, e) ==> v == w)
  }

  ghost predicate AllIdle(s: System) {
    forall w :: w in s.workers ==> s.workers[w] == Worker(Idle, 0, 0, 0)
  }

  /** A write without a claim that leaves row `e` with a status other than processing. */
  ghost predicate Rewrites(s: System, a: Step, e: int) {
    || (a.BulkIds? && e in a.ids && e in s.status && (a.force || s.status[e] != COMPLETED))
    || (a.Overwrite? && e in a.ids && e in s.status && a.to != PROCESSING)
    || (a.Add? && e == a.e)
  }

  /** Such a write to an entity that some worker holds. */
  ghost predicate Disturbs(s: System, a: Step) {
    Enabled(s, a) && exists w, e :: Holds(s, w, e) && Rewrites(s, a, e)
  }

  ghost predicate Undisturbed(start: System, steps: seq<Step>) {
    forall i :: 0 <= i < |steps| ==> !Disturbs(Run(start, steps[..i]), steps[i])
  }

  ghost predicate AlwaysExclusive(start: System, steps: seq<Step>) {
    forall i :: 0 <= i <= |steps| ==> Exclusive(Run(start, steps[..i]))
  }

  /** In every interleaving no two workers hold the same entity and held entities are processing, throughout the
      run, exactly when no outside write gives an entity that is held at that moment another status. */
  lemma ClaimsAreExclusive(start: System, steps: seq<Step>)
    requires AllIdle(start)
    ensures AlwaysExclusive(start, steps) <==> Undisturbed(start, steps)
  {
    if Undisturbed(start, steps) {
      forall i | 0 <= i <= |steps| ensures Exclusive(Run(start, steps[..i])) {
        StaysExclusive(start, steps, i);
      }
    }
    if AlwaysExclusive(start, steps) {
      forall i | 0 <= i < |steps| ensures !Disturbs(Run(start, steps[..i]), steps[i]) {
        var s := Run(start, steps[..i]);
        RunAt(start, steps, i);
        assert Exclusive(s) && Exclusive(Run(start, steps[..i + 1]));
        ExclusiveAfterExactly(s, steps[i]);
      }
    }
  }

  lemma {:induction false} StaysExclusive(start: System, steps: seq<Step>, i: nat)
    requires AllIdle(start) && Undisturbed(start, steps) && i <= |steps|
    ensures Exclusive(Run(start, steps[..i]))
  {
    if i > 0 {
      StaysExclusive(start, steps, i - 1);
      RunAt(start, steps, i - 1);
      ExclusiveAfterExactly(Run(start, steps[..i - 1]), steps[i - 1]);
    }
  }

  lemma RunAt(start: System, steps: seq<Step>, i: nat)
    requires i < |steps|
    ensures Run(start, steps[..i + 1]) == Next(Run(start, steps[..i]), steps[i])
  {
    assert steps[..i + 1][..i] == steps[..i];
  }

  /** One step: exclusive claims stay exclusive exactly when the step does not disturb them. */
  lemma ExclusiveAfterExactly(s: System, a: Step)
    requires Exclusive(s)
    ensures Exclusive(Next(s, a)) <==> !Disturbs(s, a)
  {
    if Disturbs(s, a) {
      var w, e :| Holds(s, w, e) && Rewrites(s, a, e);
      assert Holds(Next(s, a), w, e) && e in Next(s, a).status && Next(s, a).status[e] != PROCESSING;
    } else {
      StepKeepsExclusive(s, a);
    }
  }

  lemma StepKeepsExclusive(s: System, a: Step)
    requires Exclusive(s) && !Disturbs(s, a)
    ensures Exclusive(Next(s, a))
  {
    var t := Next(s, a);
    forall w, e | Holds(t, w, e)
      ensures e in t.status ==> t.status[e] == PROCESSING
      ensures Holds(s, w, e) || (a == Update(w) && Pending(s, e))
    {
      HolderHasItsRow(s, a, w, e);
    }
    forall v, w, e | Holds(t, v, e) && Holds(t, w, e) ensures v == w {
      assert Holds(s, v, e) || (a == Update(v) && Pending(s, e));
      assert Holds(s, w, e) || (a == Update(w) && Pending(s, e));
    }
  }

  lemma HolderHasItsRow(s: System, a: Step, w: int, e: int)
    requires Exclusive(s) && !Disturbs(s, a) && Holds(Next(s, a), w, e)
    ensures var t := Next(s, a); e in t.status ==> t.status[e] == PROCESSING
    ensures Holds(s, w, e) || (a == Update(w) && Pending(s, e))
  {
    if Enabled(s, a) {
      match a
      case Add(_, _) => assert Holds(s, w, e);
      case Select(_, _) => assert Holds(s, w, e);
      case SelectNone(_) => assert Holds(s, w, e);
      case Update(v) => if v != w { assert Holds(s, w, e); }
      case Finish(v, _) =>
        assert Holds(s, w, e) && Holds(s, v, s.workers[v].position.entity);
      case Raise(_) => assert Holds(s, w, e);
      case Bulk(_) => assert Holds(s, w, e);
      case BulkIds(_, _) => assert Holds(s, w, e);
      case Overwrite(_, _) => assert Holds(s, w, e);
      case Remove(_) => assert Holds(s, w, e);
      case Restart =>
    }
  }

  /** A pending-to-processing transition is one worker's UPDATE of just this row, which that worker then holds, or an
      outside write of that very status. */
  lemma TransitionHasOneOwner(s: System, a: Step, e: int)
    requires Enabled(s, a) && Pending(s, e)
    requires e in After(s, a).status && After(s, a).status[e] == PROCESSING
    ensures || (a.Update? && s.workers[a.w].position == Chosen(e) && Holds(After(s, a), a.w, e)
                && After(s, a).status == s.status[e := PROCESSING])
            || (a.Overwrite? && e in a.ids && a.to == PROCESSING && After(s, a).workers == s.workers)
  {}

  /** The status of an existing row takes another value by exactly these steps. */
  lemma StatusChangesExactly(s: System, a: Step, e: int, to: Status)
    requires Enabled(s, a) && e in s.status && to != s.status[e]
    ensures e in After(s, a).status && After(s, a).status[e] == to
            <==> match a
                 case Update(w) => s.workers[w].position == Chosen(e) && s.status[e] == PENDING && to == PROCESSING
                 case Finish(w, ok) => Holds(s, w, e) && to == if ok then COMPLETED else FAILED
                 case Bulk(ids) => e in ids && (s.status[e] == NONE || s.status[e] == FAILED) && to == PENDING
                 case BulkIds(ids, force) => e in ids && (force || s.status[e] != COMPLETED) && to == PENDING
                 case Overwrite(ids, written) => e in ids && to == written
                 case Restart => s.status[e] == PROCESSING && to == PENDING
                 case _ => false
  {}

  ghost predicate Stranded(s: System, e: int) {
    e in s.status && s.status[e] == PROCESSING && forall w :: !Holds(s, w, e)
  }

  /** Nothing the queue does by itself touches the row: only a restart, a write that gives it another status, or its
      deletion. */
  ghost predicate Rescues(s: System, a: Step, e: int) {
    a.Restart? || Rewrites(s, a, e) || (a.Remove? && e in a.ids)
  }

  /** Such a write to a pending row that nobody holds strands it: processing, with no worker on it. */
  lemma WriteStrands(s: System, ids: set<int>, e: int)
    requires Pending(s, e) && e in ids && forall w :: !Holds(s, w, e)
    ensures Stranded(Next(s, Overwrite(ids, PROCESSING)), e)
  {
    forall w ensures !Holds(Next(s, Overwrite(ids, PROCESSING)), w, e) {
      assert !Holds(s, w, e);
    }
  }

  /** And there it stays, whatever the workers do, exactly until it is rescued. */
  lemma StrandedExactly(s: System, a: Step, e: int)
    requires Stranded(s, e) && Enabled(s, a)
    ensures Stranded(Next(s, a), e) <==> !Rescues(s, a, e)
  {
    var t := Next(s, a);
    if !Rescues(s, a, e) {
      forall w ensures !Holds(t, w, e) {
        assert !Holds(s, w, e);
      }
      match a
      case Finish(v, _) => assert !Holds(s, v, e);
      case _ =>
    }
  }

  lemma {:induction false} StrandedStays(s: System, steps: seq<Step>, e: int)
    requires Stranded(s, e)
    requires forall i :: 0 <= i < |steps| ==> !Rescues(Run(s, steps[..i]), steps[i], e)
    ensures Stranded(Run(s, steps), e)
  {
    if steps != [] {
      var before := steps[..|steps| - 1];
      forall i | 0 <= i < |before| ensures !Rescues(Run(s, before[..i]), before[i], e) {
        assert before[..i] == steps[..i];
      }
      StrandedStays(s, before, e);
      if Enabled(Run(s, before), steps[|before|]) {
        StrandedExactly(Run(s, before), steps[|before|], e);
      }
    }
  }

  /** A worker whose turn ends without a claim changed no status. */
  lemma NothingClaimedNothingChanged(s: System, a: Step)
    requires Enabled(s, a) && (a.SelectNone? || (a.Update? && After(s, a).workers[a.w].position == Idle))
    ensures After(s, a).status == s.status
  {}

  // ── Every enqueueing is claimed at most once ────────────────────────────

  ghost predicate Pending(s: System, e: int) {
    e in s.status && s.status[e] == PENDING
  }

  ghost predicate Claims(s: System, a: Step, e: int) {
    a.Update? && !Holds(s, a.w, e) && Holds(Next(s, a), a.w, e)
  }

  /** How often `e` became pending, and how often it was claimed. */
  ghost function Enqueued(start: System, steps: seq<Step>, e: int): nat {
    if steps == [] then (if Pending(start, e) then 1 else 0)
    else
      var before := Run(start, steps[..|steps| - 1]);
      Enqueued(start, steps[..|steps| - 1], e)
      + (if !Pending(before, e) && Pending(Run(start, steps), e) then 1 else 0)
  }

  ghost function Claimed(start: System, steps: seq<Step>, e: int): nat {
    if steps == [] then 0
    else
      Claimed(start, steps[..|steps| - 1], e)
      + (if Claims(Run(start, steps[..|steps| - 1]), steps[|steps| - 1], e) then 1 else 0)
  }

  /** The entity leaves the queue unclaimed: an outside write or a deletion takes it out, or a worker finishes that
      held it although it was pending again. */
  ghost predicate Diverts(s: System, a: Step, e: int) {
    && Pending(s, e) && Enabled(s, a)
    && (|| (a.Overwrite? && e in a.ids && a.to != PENDING)
        || (a.Remove? && e in a.ids)
        || (a.Finish? && Holds(s, a.w, e)))
  }

  ghost function Diverted(start: System, steps: seq<Step>, e: int): nat {
    if steps == [] then 0
    else
      Diverted(start, steps[..|steps| - 1], e)
      + (if Diverts(Run(start, steps[..|steps| - 1]), steps[|steps| - 1], e) then 1 else 0)
  }

  /** Conservation, over every run: each time an entity became pending it was claimed once, or diverted once, or it
      is still waiting. */
  lemma {:induction false} ClaimsMatchEnqueues(start: System, steps: seq<Step>, e: int)
    ensures Enqueued(start, steps, e)
            == Claimed(start, steps, e) + Diverted(start, steps, e) + (if Pending(Run(start, steps), e) then 1 else 0)
  {
    if steps != [] {
      ClaimsMatchEnqueues(start, steps[..|steps| - 1], e);
      LeavesPendingExactly(Run(start, steps[..|steps| - 1]), steps[|steps| - 1], e);
    }
  }

  /** An entity leaves the queue exactly when it is claimed or diverted, and never by both. */
  lemma LeavesPendingExactly(s: System, a: Step, e: int)
    ensures Claims(s, a, e) || Diverts(s, a, e) <==> Pending(s, e) && !Pending(Next(s, a), e)
    ensures !(Claims(s, a, e) && Diverts(s, a, e))
  {
    if Enabled(s, a) {
      match a
      case Add(_, _) =>
      case Select(_, _) =>
      case SelectNone(_) =>
      case Update(_) =>
      case Finish(_, _) =>
      case Raise(_) =>
      case Bulk(_) =>
      case BulkIds(_, _) =>
      case Overwrite(_, _) =>
      case Remove(_) =>
      case Restart =>
    }
  }

  /** As long as nobody disturbs the workers and nobody overwrites the entity itself, nothing is diverted: it is
      claimed exactly as often as it was enqueued, less one while it waits. */
  lemma {:induction false} NothingDiverted(start: System, steps: seq<Step>, e: int)
    requires AllIdle(start) && Undisturbed(start, steps)
    requires forall i :: 0 <= i < |steps| ==> !((steps[i].Overwrite? || steps[i].Remove?) && e in steps[i].ids)
    ensures Diverted(start, steps, e) == 0
  {
    if steps != [] {
      var before := steps[..|steps| - 1];
      forall i | 0 <= i < |before| ensures !Disturbs(Run(start, before[..i]), before[i]) {
        assert before[..i] == steps[..i];
      }
      NothingDiverted(start, before, e);
      StaysExclusive(start, steps, |before|);
    }
  }

  // ── Batch announcements ─────────────────────────────────────────────────

  /** What a worker announced plus what it is still counting is the number of its turns that ended with a claim. */
  lemma {:induction false} BatchesAddUp(start: System, steps: seq<Step>, w: int)
    requires AllIdle(start) && w in Run(start, steps).workers
    ensures var worker := Run(start, steps).workers[w]; worker.announced + worker.running == worker.ticks
  {
    if steps != [] {
      BatchesAddUp(start, steps[..|steps| - 1], w);
    }
  }

  /** A batch is announced when the worker has claims to announce and its turn ends without one: after an
      empty SELECT, but also after a lost race, whatever is still in the queue. */
  lemma AnnouncedExactly(s: System, a: Step, w: int)
    requires w in s.workers && !a.Restart?
    ensures Next(s, a).workers[w].announced > s.workers[w].announced
            <==> && Enabled(s, a) && s.workers[w].running > 0
                 && (a == SelectNone(w) || (a == Update(w) && !Pending(s, s.workers[w].position.candidate)))
  {}

  /** So an announcement does not show that the queue is empty: of two workers that chose the same row, the
      one that comes second announces its earlier claims, and every other pending row is still waiting. */
  lemma LostRaceAnnounces(s: System, v: int, w: int, e: int)
    requires v != w && v in s.workers && w in s.workers && Pending(s, e)
    requires s.workers[v].position == s.workers[w].position == Chosen(e) && s.workers[w].running > 0
    ensures var t := Next(Next(s, Update(v)), Update(w));
            && Holds(t, v, e) && w in t.workers
            && t.workers[w].announced == s.workers[w].announced + s.workers[w].running
            && forall f :: Pending(t, f) <==> Pending(s, f) && f != e
  {
    var t := Next(s, Update(v));
    assert t.workers[w] == s.workers[w] && Enabled(t, Update(w));
  }

  /** One undisturbed claim, from the SELECT to the end of the enrichment. */
  lemma OneClaim(s: System, w: int, e: int, ok: bool)
    requires w in s.workers && s.workers[w].position == Idle && Pending(s, e)
    ensures var t := Next(Next(Next(s, Select(w, e)), Update(w)), Finish(w, ok));
            && w in t.workers && t.workers[w].position == Idle && t.workers[w].running == s.workers[w].running + 1
            && t.workers[w].announced == s.workers[w].announced
            && (forall v :: v in s.workers && v != w ==> v in t.workers && t.workers[v] == s.workers[v])
            && forall f :: Pending(t, f) <==> Pending(s, f) && f != e
  {}

  lemma BothChoose(s: System, v: int, w: int, e: int)
    requires v != w && v in s.workers && w in s.workers && Pending(s, e)
    requires s.workers[v].position == s.workers[w].position == Idle
    ensures var t := Next(Next(s, Select(v, e)), Select(w, e));
            && v in t.workers && w in t.workers && t.status == s.status
            && t.workers[v] == s.workers[v].(position := Chosen(e))
            && t.workers[w] == s.workers[w].(position := Chosen(e))
  {}

  lemma RunMore(start: System, steps: seq<Step>, a: Step)
    ensures Run(start, steps + [a]) == Next(Run(start, steps), a)
  {
    assert (steps + [a])[..|steps|] == steps;
  }

  /** Such a run from any two idle workers and waiting rows: worker `w` finishes the first row, both workers choose the
      second, worker `v` wins it, and worker `w` announces its batch however many other rows still wait. */
  lemma LostRaceRun(start: System, v: int, w: int, a: int, b: int) returns (steps: seq<Step>)
    requires v != w && v in start.workers && w in start.workers
    requires start.workers[v].position == start.workers[w].position == Idle
    requires a != b && Pending(start, a) && Pending(start, b)
    ensures Undisturbed(start, steps)
    ensures var t := Run(start, steps);
            && w in t.workers && t.workers[w].announced == start.workers[w].announced + start.workers[w].running + 1
            && forall f :: Pending(t, f) <==> Pending(start, f) && f != a && f != b
  {
    OneClaim(start, w, a, true);
    var first := [Select(w, a)] + [Update(w)] + [Finish(w, true)];
    var race := first + [Select(v, b)] + [Select(w, b)];
    steps := race + [Update(v)] + [Update(w)];
    hide Next, Run, Undisturbed, Pending;
    RunFirst(start, w, a);
    RunTwoMore(start, first, Select(v, b), Select(w, b));
    RunTwoMore(start, race, Update(v), Update(w));
    BothChoose(Run(start, first), v, w, b);
    LostRaceAnnounces(Run(start, race), v, w, b);
    NoOutsideWrites(start, steps);
  }

  lemma RunFirst(start: System, w: int, e: int)
    ensures Run(start, [Select(w, e)] + [Update(w)] + [Finish(w, true)])
            == Next(Next(Next(start, Select(w, e)), Update(w)), Finish(w, true))
  {
    hide Next, Run;
    RunEmpty(start);
    RunMore(start, [], Select(w, e));
    assert [] + [Select(w, e)] == [Select(w, e)];
    RunTwoMore(start, [Select(w, e)], Update(w), Finish(w, true));
  }

  lemma NoOutsideWrites(start: System, steps: seq<Step>)
    requires forall i :: 0 <= i < |steps| ==> !steps[i].BulkIds? && !steps[i].Overwrite? && !steps[i].Add?
    ensures Undisturbed(start, steps)
  {}

  lemma RunTwoMore(start: System, steps: seq<Step>, a: Step, b: Step)
    ensures Run(start, steps + [a] + [b]) == Next(Next(Run(start, steps), a), b)
  {
    RunMore(start, steps, a);
    RunMore(start, steps + [a], b);
  }

  lemma RunEmpty(start: System)
    ensures Run(start, []) == start
  {}

  // ── The unguarded writes ────────────────────────────────────────────────

  /** `trigger_enrichment_bulk` writes without looking at the status again. With other steps between its read and
      its write, the write keeps claims exclusive exactly when no worker holds one of the rows by then. */
  lemma LateBulkWriteExactly(s: System, ids: set<int>)
    requires Exclusive(s) && ids <= s.status.Keys
    ensures Exclusive(s.(status := AllPending(s.status, ids))) <==> forall w, e :: Holds(s, w, e) ==> e !in ids
  {
    var late := s.(status := AllPending(s.status, ids));
    forall w, e ensures Holds(late, w, e) <==> Holds(s, w, e) {}
    if w, e :| Holds(s, w, e) && e in ids {
      assert Holds(late, w, e) && late.status[e] == PENDING;
    }
  }

  /** And once such a row is held, a second idle worker can take it too. */
  lemma LateBulkWriteDoubleClaim(s: System, ids: set<int>, v: int, w: int, e: int)
    requires Exclusive(s) && ids <= s.status.Keys && e in ids && Holds(s, v, e)
    requires w in s.workers && s.workers[w].position == Idle
    ensures TakenTwice(s.(status := AllPending(s.status, ids)), v, w, e)
  {
    HeldAndPending(s.(status := AllPending(s.status, ids)), v, w, e);
  }

  /** The bulk-ids endpoint does this to every held row it names, forced or not. */
  lemma BulkIdsDoubleClaim(s: System, ids: set<int>, force: bool, v: int, w: int, e: int)
    requires Exclusive(s) && e in ids && e in s.status && Holds(s, v, e)
    requires w in s.workers && s.workers[w].position == Idle
    ensures TakenTwice(Next(s, BulkIds(ids, force)), v, w, e)
  {
    HeldAndPending(Next(s, BulkIds(ids, force)), v, w, e);
  }

  /** `w` can choose and claim `e` next, and then holds it together with `v`. */
  ghost predicate TakenTwice(s: System, v: int, w: int, e: int) {
    && v != w && Enabled(s, Select(w, e)) && Enabled(Next(s, Select(w, e)), Update(w))
    && var t := Next(Next(s, Select(w, e)), Update(w)); Holds(t, v, e) && Holds(t, w, e)
  }

  lemma HeldAndPending(s: System, v: int, w: int, e: int)
    requires Holds(s, v, e) && Pending(s, e) && w in s.workers && s.workers[w].position == Idle
    ensures TakenTwice(s, v, w, e)
  {}
}
