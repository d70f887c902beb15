/** `build_row`, `_try_insert` and `seed_empty_tables` (scripts/ci_migration_rehearsal.py:171-244): give every
    empty table one row, retrying while a pass makes progress, over a foreign-key graph that may have cycles. */
module MigrationSeeding {
  import opened Wrappers

  /** `databaseGenerated`: a serial or identity primary key. `parent`: the referenced table, if a foreign key. */
  datatype Column = Column(name: string, databaseGenerated: bool, parent: Option<string>,
                           nullable: bool, serverDefault: bool, sampleable: bool)

  datatype Table = Table(name: string, columns: seq<Column>)

  datatype Value = Sample | ParentValue(table: string) | Null

  type Row = map<string, Value>

  datatype Failure = NoParentRow(column: string) | NoSample(column: string)

  datatype SeedReport = SeedReport(seeded: seq<string>, alreadyPopulated: seq<string>, failed: map<string, Failure>)

  // ── One row ─────────────────────────────────────────────────────────────

  /** The column gets a value, or may be left out, when the tables in `populated` have rows. */
  predicate Fillable(c: Column, populated: set<string>) {
    if c.databaseGenerated then true
    else if c.parent.Some? then c.parent.value in populated || c.nullable
    else c.sampleable || c.nullable || c.serverDefault
  }

  ghost predicate CanInsert(t: Table, populated: set<string>) {
    forall c :: c in t.columns ==> Fillable(c, populated)
  }

  /** The first column that cannot be filled is the one the error names. */
  ghost predicate BlamesFirst(t: Table, populated: set<string>, failure: Failure) {
    exists k :: 0 <= k < |t.columns| && !Fillable(t.columns[k], populated)
      && (forall i :: 0 <= i < k ==> Fillable(t.columns[i], populated))
      && failure == if t.columns[k].parent.Some? then NoParentRow(t.columns[k].name) else NoSample(t.columns[k].name)
  }

  ghost predicate DistinctColumns(t: Table) {
    forall i, j :: 0 <= i < j < |t.columns| ==> t.columns[i].name != t.columns[j].name
  }

  method BuildRow(t: Table, populated: set<string>) returns (r: Result<Row, Failure>)
    requires DistinctColumns(t)
    ensures r.Ok? <==> CanInsert(t, populated)
    ensures r.Ok? <==> forall c :: c in t.columns && !c.databaseGenerated ==>
              if c.parent.Some? then c.parent.value in populated || c.nullable
              else c.sampleable || c.nullable || c.serverDefault
    ensures r.Err? ==> BlamesFirst(t, populated, r.error)
    ensures r.Ok? ==> forall c :: c in t.columns ==>
      if c.databaseGenerated then c.name !in r.value
      else if c.parent.Some? then
        c.name in r.value && r.value[c.name] == (if c.parent.value in populated then ParentValue(c.parent.value) else Null)
      else (c.name in r.value <==> c.sampleable) && (c.sampleable ==> r.value[c.name] == Sample)
  {
    var row: Row := map[];
    for k := 0 to |t.columns|
      invariant forall i :: 0 <= i < k ==> Fillable(t.columns[i], populated)
      invariant forall n :: n in row ==> exists i :: 0 <= i < k && t.columns[i].name == n
      invariant forall i :: 0 <= i < k ==>
        var c := t.columns[i];
        if c.databaseGenerated then c.name !in row
        else if c.parent.Some? then
          c.name in row && row[c.name] == (if c.parent.value in populated then ParentValue(c.parent.value) else Null)
        else (c.name in row <==> c.sampleable) && (c.sampleable ==> row[c.name] == Sample)
    {
      var c := t.columns[k];
      if c.databaseGenerated {
        continue;
      }
      if c.parent.Some? {
        var value := if c.parent.value in populated then ParentValue(c.parent.value) else Null;
        if value == Null && !c.nullable {
          assert !Fillable(t.columns[k], populated);
          return Err(NoParentRow(c.name));
        }
        row := row[c.name := value];
        continue;
      }
      if !c.sampleable {
        if c.nullable || c.serverDefault {
          continue;
        }
        assert !Fillable(t.columns[k], populated);
        return Err(NoSample(c.name));
      }
      row := row[c.name := Sample];
    }
    return Ok(row);
  }

  lemma MoreRowsNeverHurt(t: Table, few: set<string>, many: set<string>)
    requires few <= many && CanInsert(t, few)
    ensures CanInsert(t, many)
  {}

  // ── What any insertion order could fill ─────────────────────────────────

  /** Inserting one row into each listed table, in this order, succeeds at every step. */
  ghost predicate InsertOrder(tables: seq<Table>, populated: set<string>, order: seq<Table>) {
    order == [] ||
    (var before, last := order[..|order| - 1], order[|order| - 1];
     InsertOrder(tables, populated, before) && last in tables && CanInsert(last, populated + Names(before)))
  }

  function Names(tables: seq<Table>): set<string> {
    set t | t in tables :: t.name
  }

  ghost predicate DistinctTables(tables: seq<Table>) {
    forall i, j :: 0 <= i < j < |tables| ==> tables[i].name != tables[j].name
  }

  /** Some sequence of successful inserts fills table `t`. */
  ghost predicate Reachable(tables: seq<Table>, populated: set<string>, t: Table) {
    exists order :: InsertOrder(tables, populated, order) && t in order
  }

  /** If nothing outside `filled` can be inserted any more, no order ever leaves it. */
  lemma {:induction false} OrdersStayInside(tables: seq<Table>, populated: set<string>, filled: set<string>, order: seq<Table>)
    requires populated <= filled && InsertOrder(tables, populated, order)
    requires forall t :: t in tables && CanInsert(t, filled) ==> t.name in filled
    ensures Names(order) <= filled
  {
    if order != [] {
      var before, last := order[..|order| - 1], order[|order| - 1];
      OrdersStayInside(tables, populated, filled, before);
      MoreRowsNeverHurt(last, populated + Names(before), filled);
      assert order == before + [last];
    }
  }

  lemma OrderGrows(tables: seq<Table>, populated: set<string>, order: seq<Table>, t: Table)
    requires InsertOrder(tables, populated, order) && t in tables && CanInsert(t, populated + Names(order))
    ensures InsertOrder(tables, populated, order + [t])
    ensures Names(order + [t]) == Names(order) + {t.name}
  {
    assert (order + [t])[..|order|] == order;
  }

  // ── Seeding ─────────────────────────────────────────────────────────────

  function NamesInOrder(tables: seq<Table>): (names: seq<string>)
    ensures |names| == |tables|
    ensures forall i :: 0 <= i < |tables| ==> names[i] == tables[i].name
  {
    if tables == [] then [] else NamesInOrder(tables[..|tables| - 1]) + [tables[|tables| - 1].name]
  }

  function SetOf(names: seq<string>): set<string> {
    set n | n in names
  }

  lemma NamesListed(tables: seq<Table>)
    ensures SetOf(NamesInOrder(tables)) == Names(tables)
  {
    var names := NamesInOrder(tables);
    forall n | n in names ensures n in Names(tables) {
      var i :| 0 <= i < |names| && names[i] == n;
      assert tables[i] in tables;
    }
    forall t | t in tables ensures t.name in names {
      var i :| 0 <= i < |tables| && tables[i] == t;
      assert names[i] == t.name;
    }
  }

  method TryInsert(t: Table, populated0: set<string>) returns (failure: Option<Failure>, populated: set<string>)
    requires DistinctColumns(t)
    ensures failure.None? <==> CanInsert(t, populated0)
    ensures failure.Some? ==> BlamesFirst(t, populated0, failure.value)
    ensures populated == if failure.None? then populated0 + {t.name} else populated0
  {
    var row := BuildRow(t, populated0);
    if row.Err? {
      return Some(row.error), populated0;
    }
    return None, populated0 + {t.name};
  }

  /** `whole` is shared out between `a` and `b`, by name, with no table in both or twice. */
  ghost predicate SharedOut(whole: seq<Table>, a: seq<Table>, b: seq<Table>) {
    && DistinctTables(whole) && DistinctTables(a) && DistinctTables(b)
    && Names(a) !! Names(b)
    && (forall t :: t in whole <==> t in a || t in b)
  }

  lemma ShareNext(whole: seq<Table>, k: nat, a: seq<Table>, b: seq<Table>)
    requires k < |whole| && DistinctTables(whole) && SharedOut(whole[..k], a, b)
    ensures SharedOut(whole[..k + 1], a + [whole[k]], b)
    ensures SharedOut(whole[..k + 1], a, b + [whole[k]])
    ensures whole[k].name !in Names(a) && whole[k].name !in Names(b)
  {
    var t := whole[k];
    assert whole[..k + 1] == whole[..k] + [t];
    forall u | u in whole[..k] ensures u.name != t.name {
      var i :| 0 <= i < k && whole[..k][i] == u;
      assert whole[i] == u;
    }
  }

  lemma ShareAgain(whole: seq<Table>, a: seq<Table>, b: seq<Table>, c: seq<Table>, d: seq<Table>)
    requires SharedOut(whole, a, b) && SharedOut(b, c, d)
    ensures SharedOut(whole, a + c, d)
  {
    forall t | t in c ensures t.name in Names(b) {}
    forall t | t in d ensures t.name in Names(b) {}
    assert Names(a + c) == Names(a) + Names(c);
    forall i, j | 0 <= i < j < |a + c| ensures (a + c)[i].name != (a + c)[j].name {
      if i < |a| && |a| <= j {
        assert (a + c)[i].name in Names(a) && c[j - |a|] in c;
      }
    }
  }

  /** None of these tables could be inserted now, and each failure says why. */
  ghost predicate AllStuck(tables: seq<Table>, populated: set<string>, failures: map<string, Failure>) {
    && failures.Keys == Names(tables)
    && forall t :: t in tables ==> !CanInsert(t, populated) && BlamesFirst(t, populated, failures[t.name])
  }

  /** The inserts made so far succeed in the order they were made, and account for every new row. */
  ghost predicate FilledSoFar(tables: seq<Table>, initial: set<string>, order: seq<Table>, populated: set<string>) {
    InsertOrder(tables, initial, order) && populated == initial + Names(order)
  }

  /** One pass over the pending tables: later inserts already see the rows of earlier ones. */
  method Pass(ghost tables: seq<Table>, ghost initial: set<string>, ghost order: seq<Table>,
              pending: seq<Table>, populated0: set<string>)
      returns (filled: seq<Table>, left: seq<Table>, failures: map<string, Failure>, populated: set<string>)
    requires forall t :: t in pending ==> t in tables && DistinctColumns(t)
    requires DistinctTables(pending) && FilledSoFar(tables, initial, order, populated0)
    ensures FilledSoFar(tables, initial, order + filled, populated)
    ensures SharedOut(pending, filled, left) && |filled| + |left| == |pending|
    ensures filled == [] ==> AllStuck(left, populated, failures)
  {
    hide BlamesFirst, SharedOut, CanInsert, DistinctColumns, InsertOrder;
    filled, left, failures, populated := [], [], map[], populated0;
    assert order + filled == order;
    NothingShared(pending);
    for k := 0 to |pending|
      invariant FilledSoFar(tables, initial, order + filled, populated)
      invariant SharedOut(pending[..k], filled, left) && |filled| + |left| == k
      invariant filled == [] ==> AllStuck(left, populated, failures)
    {
      var t := pending[k];
      ShareNext(pending, k, filled, left);
      var failure;
      failure, populated := TryInsert(t, populated);
      if failure.None? {
        OrderGrows(tables, initial, order + filled, t);
        assert order + (filled + [t]) == order + filled + [t];
        filled := filled + [t];
      } else {
        left := left + [t];
        failures := failures[t.name := failure.value];
      }
    }
    assert pending[..|pending|] == pending;
  }

  lemma NothingShared(whole: seq<Table>)
    ensures SharedOut(whole[..0], [], [])
  {}

  /** Every table is reported exactly once. */
  ghost predicate ReportsEach(tables: seq<Table>, seeded: set<string>, already: set<string>, failed: set<string>) {
    seeded !! already !! failed && seeded + already + failed == Names(tables)
  }

  method SplitByRows(tables: seq<Table>, populated: set<string>) returns (pending: seq<Table>, already: seq<Table>)
    requires DistinctTables(tables)
    ensures SharedOut(tables, pending, already)
    ensures forall t :: t in pending ==> t.name !in populated
    ensures forall t :: t in already ==> t.name in populated
  {
    hide SharedOut;
    pending, already := [], [];
    NothingShared(tables);
    for k := 0 to |tables|
      invariant SharedOut(tables[..k], pending, already)
      invariant forall t :: t in pending ==> t.name !in populated
      invariant forall t :: t in already ==> t.name in populated
    {
      ShareNext(tables, k, pending, already);
      if tables[k].name !in populated {
        pending := pending + [tables[k]];
      } else {
        already := already + [tables[k]];
      }
    }
    assert tables[..|tables|] == tables;
  }

  /** The report: who had rows, who was given one in which order, and who could not be and why. */
  method SeedEmptyTables(tables: seq<Table>, populated0: set<string>) returns (r: SeedReport)
    requires DistinctTables(tables) && forall t :: t in tables ==> DistinctColumns(t)
    ensures ReportsEach(tables, SetOf(r.seeded), SetOf(r.alreadyPopulated), r.failed.Keys)
    ensures forall t :: t in tables ==> (t.name in r.alreadyPopulated <==> t.name in populated0)
    ensures forall t :: t in tables && t.name !in populated0 ==>
      (t.name in r.failed <==> !Reachable(tables, populated0, t))
    ensures forall t :: t in tables && t.name in r.failed ==>
      BlamesFirst(t, populated0 + SetOf(r.seeded), r.failed[t.name])
    ensures exists order :: InsertOrder(tables, populated0, order) && r.seeded == NamesInOrder(order)
  {
    hide SharedOut, InsertOrder, BlamesFirst, CanInsert, DistinctColumns, Reachable;
    var pending, already := SplitByRows(tables, populated0);
    ghost var empty := pending;
    var done: seq<Table> := [];
    var failed: map<string, Failure> := map[];
    var now := populated0;
    var stuck := false;
    SharedMembers(tables, empty, already);
    SharedStart(empty);
    NoOrderYet(tables, populated0);
    while pending != [] && !stuck
      invariant FilledSoFar(tables, populated0, done, now)
      invariant SharedOut(empty, done, pending)
      invariant stuck || pending == [] ==> AllStuck(pending, now, failed)
      invariant !stuck ==> failed == map[]
      decreases |pending|, !stuck
    {
      SharedMembers(empty, done, pending);
      var filled, left, failures;
      filled, left, failures, now := Pass(tables, populated0, done, pending, now);
      ShareAgain(empty, done, pending, filled, left);
      done := done + filled;
      pending := left;
      if filled == [] {
        failed := failures;
        stuck := true;
      }
    }
    r := SeedReport(NamesInOrder(done), NamesInOrder(already), failed);
    SeedingIsExact(tables, populated0, empty, already, done, pending, now, failed);
    NamesListed(done);
    NamesListed(already);
  }

  lemma NoOrderYet(tables: seq<Table>, populated: set<string>)
    ensures FilledSoFar(tables, populated, [], populated)
  {}

  lemma SharedStart(whole: seq<Table>)
    requires DistinctTables(whole)
    ensures SharedOut(whole, [], whole)
  {}

  lemma SharedMembers(whole: seq<Table>, a: seq<Table>, b: seq<Table>)
    requires SharedOut(whole, a, b)
    ensures DistinctTables(whole) && DistinctTables(a) && DistinctTables(b)
    ensures forall t :: t in a || t in b ==> t in whole
    ensures forall t :: t in whole ==> t in a || t in b
    ensures Names(whole) == Names(a) + Names(b) && Names(a) !! Names(b)
  {}

  /** When a whole pass fails, what is left is exactly what no insertion order could fill. */
  lemma SeedingIsExact(tables: seq<Table>, populated0: set<string>, empty: seq<Table>, already: seq<Table>,
                       done: seq<Table>, pending: seq<Table>, now: set<string>, failed: map<string, Failure>)
    requires SharedOut(tables, empty, already) && SharedOut(empty, done, pending)
    requires forall t :: t in already ==> t.name in populated0
    requires forall t :: t in empty ==> t.name !in populated0
    requires FilledSoFar(tables, populated0, done, now) && AllStuck(pending, now, failed)
    ensures ReportsEach(tables, Names(done), Names(already), failed.Keys)
    ensures forall t :: t in tables ==> (t.name in Names(already) <==> t.name in populated0)
    ensures forall t :: t in tables && t.name !in populated0 ==> (t.name in failed <==> !Reachable(tables, populated0, t))
    ensures forall t :: t in tables && t.name in failed ==> BlamesFirst(t, now, failed[t.name])
  {
    hide InsertOrder, BlamesFirst, SharedOut, CanInsert;
    SharedMembers(tables, empty, already);
    SharedMembers(empty, done, pending);
    forall t | t in tables && CanInsert(t, now) ensures t.name in now {
      if t in done {
        assert t.name in Names(done);
      }
    }
    forall t | t in tables && t.name in failed ensures t in pending {
      assert t in already ==> t.name in Names(already);
      assert t in done ==> t.name in Names(done);
    }
    forall t | t in pending ensures t.name !in now && !Reachable(tables, populated0, t) {
      assert t.name in Names(pending) && t.name !in Names(done);
      NeverFilled(tables, populated0, now, t);
    }
    forall t | t in done ensures Reachable(tables, populated0, t) {}
  }

  lemma NeverFilled(tables: seq<Table>, populated: set<string>, filled: set<string>, t: Table)
    requires populated <= filled && t.name !in filled
    requires forall u :: u in tables && CanInsert(u, filled) ==> u.name in filled
    ensures !Reachable(tables, populated, t)
  {
    hide InsertOrder, CanInsert;
    forall order | InsertOrder(tables, populated, order) ensures t !in order {
      OrdersStayInside(tables, populated, filled, order);
      assert t in order ==> t.name in Names(order);
    }
  }
}
