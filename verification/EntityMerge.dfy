/** `merge_entities` of `backend/entity_linker.py`: secondary rows are folded into a primary row and deleted. */
module EntityMerge {
  import opened Sets
  import opened Wrappers

  datatype Strategy = KeepPrimary | KeepNonEmpty | KeepLongest | Other

  datatype Outcome = Merged | PrimaryNotFound | NoSecondaries

  type Field = Option<string>

  // ── Rows ────────────────────────────────────────────────────────────────

  /** `fields` holds the columns of `_MERGE_FIELDS`, in that order. */
  datatype Record = Record(fields: seq<Field>, citations: Option<nat>, completed: bool)

  const FIELDS := 9

  type Row = r: Record | |r.fields| == FIELDS
    witness Record([None, None, None, None, None, None, None, None, None], None, false)

  /** Neither null nor the empty string. */
  predicate Filled(v: Field) {
    v.Some? && v.value != ""
  }

  function Length(v: Field): nat {
    if v.Some? then |v.value| else 0
  }

  /** What one secondary value does to the value collected so far. */
  function Absorb(strategy: Strategy, v: Field, sec: Field): Field {
    if !Filled(sec) then v
    else
      match strategy
      case KeepNonEmpty => if Filled(v) then v else sec
      case KeepLongest => if Length(sec) > Length(v) then sec else v
      case _ => v
  }

  function AbsorbAll(strategy: Strategy, v: Field, secs: seq<Field>): Field {
    if secs == [] then v else Absorb(strategy, AbsorbAll(strategy, v, secs[..|secs| - 1]), secs[|secs| - 1])
  }

  function Count(r: Row): nat {
    if r.citations.Some? then r.citations.value else 0
  }

  /** `max([primary or 0] + [s or 0 for s in secondaries])`. */
  function MostCited(p: Row, secs: seq<Row>): nat {
    if secs == [] then Count(p)
    else
      var before, last := MostCited(p, secs[..|secs| - 1]), Count(secs[|secs| - 1]);
      if last > before then last else before
  }

  predicate AnyCompleted(p: Row, secs: seq<Row>) {
    p.completed || exists s :: s in secs && s.completed
  }

  function Column(secs: seq<Row>, f: nat): seq<Field>
    requires f < FIELDS
  {
    seq(|secs|, i requires 0 <= i < |secs| => secs[i].fields[f])
  }

  function MergedRow(strategy: Strategy, p: Row, secs: seq<Row>): Row {
    Record(seq(FIELDS, f requires 0 <= f < FIELDS => AbsorbAll(strategy, p.fields[f], Column(secs, f))),
        Some(MostCited(p, secs)), AnyCompleted(p, secs))
  }

  // ── The table ───────────────────────────────────────────────────────────

  type Rows = map<int, Row>

  /** `order` lists, in whatever order the query returns them, the rows with one of the given ids. */
  ghost predicate Selects(rows: Rows, ids: seq<int>, order: seq<int>) {
    && (forall id :: id in order <==> id in ids && id in rows)
    && AllIn(rows, order)
    && Distinct(order)
  }

  ghost predicate AllIn(rows: Rows, ids: seq<int>) {
    forall i :: 0 <= i < |ids| ==> ids[i] in rows
  }

  lemma SelectedAreNamed(rows: Rows, ids: seq<int>, order: seq<int>)
    requires Selects(rows, ids, order) && order != []
    ensures exists id :: id in ids && id in rows
  {
    var id: int := order[0];
    assert id in order;
  }

  function Picked(rows: Rows, order: seq<int>): (picked: seq<Row>)
    requires AllIn(rows, order)
    ensures |picked| == |order| && forall i :: 0 <= i < |order| ==> picked[i] == rows[order[i]]
  {
    seq(|order|, i requires 0 <= i < |order| => rows[order[i]])
  }

  /** The table after a merge: the primary row has absorbed the picked rows, which are gone. */
  ghost function MergedRows(strategy: Strategy, rows: Rows, primary: int, order: seq<int>): Rows
    requires primary in rows && primary !in order && AllIn(rows, order)
  {
    map id | id in rows && id !in order ::
      if id == primary then MergedRow(strategy, rows[primary], Picked(rows, order)) else rows[id]
  }

  class EntityTable {
    var rows: Rows

    method DeleteRows(order: seq<int>)
      modifies this
      ensures forall id :: id in rows <==> id in old(rows) && id !in order
      ensures forall id :: id in rows ==> rows[id] == old(rows)[id]
    {
      for i := 0 to |order|
        invariant forall id :: id in rows <==> id in old(rows) && id !in order[..i]
        invariant forall id :: id in rows ==> rows[id] == old(rows)[id]
      {
        assert order[..i + 1] == order[..i] + [order[i]];
        rows := rows - {order[i]};
      }
      assert order[..|order|] == order;
    }

    /** `merge_entities`; the caller has already rejected a primary id among the secondary ids. */
    method MergeEntities(primary: int, ids: seq<int>, order: seq<int>, strategy: Strategy) returns (outcome: Outcome)
      requires primary !in ids && Selects(rows, ids, order)
      modifies this
      ensures outcome == PrimaryNotFound <==> primary !in old(rows)
      ensures outcome == NoSecondaries <==> primary in old(rows) && forall id :: id in ids ==> id !in old(rows)
      ensures rows == if outcome == Merged then MergedRows(strategy, old(rows), primary, order) else old(rows)
      // The named rows are gone, the others are what they were, and the primary has collected column by column.
      ensures outcome == Merged ==>
                && (forall id :: id in rows <==> id in old(rows) && id !in ids)
                && (forall id :: id in rows && id != primary ==> rows[id] == old(rows)[id])
                && primary in rows
                && forall f :: 0 <= f < 9 ==>
                     rows[primary].fields[f]
                     == AbsorbAll(strategy, old(rows)[primary].fields[f], ValuesOf(old(rows), order, f))
      ensures outcome == Merged ==>
                && primary in rows
                && (rows[primary].completed <==>
                      old(rows)[primary].completed || exists id :: id in order && old(rows)[id].completed)
    {
      if primary !in rows {
        return PrimaryNotFound;
      }
      if order == [] {
        return NoSecondaries;
      }
      ghost var before := rows;
      SelectedAreNamed(rows, ids, order);
      var secs := Picked(rows, order);
      var fields := MergeFields(rows[primary], secs, strategy);
      var most := CountCitations(rows[primary], secs);
      rows := rows[primary := Record(fields, Some(most), AnyCompleted(rows[primary], secs))];
      DeleteRows(order);
      assert forall id :: id in rows <==> id in MergedRows(strategy, before, primary, order);
      assert rows == MergedRows(strategy, before, primary, order);
      ShareOfPrimary(strategy, before, primary, order);
      return Merged;
    }
  }

  /** The values of column `f` in the selected rows. */
  function ValuesOf(rows: Rows, order: seq<int>, f: nat): seq<Field>
    requires f < FIELDS && AllIn(rows, order)
  {
    seq(|order|, i requires 0 <= i < |order| => rows[order[i]].fields[f])
  }

  lemma ShareOfPrimary(strategy: Strategy, rows: Rows, primary: int, order: seq<int>)
    requires primary in rows && primary !in order && AllIn(rows, order)
    ensures var merged := MergedRows(strategy, rows, primary, order)[primary];
            && (forall f :: 0 <= f < 9 ==>
                  merged.fields[f] == AbsorbAll(strategy, rows[primary].fields[f], ValuesOf(rows, order, f)))
            && (merged.completed <==> rows[primary].completed || exists id :: id in order && id in rows && rows[id].completed)
  {
    var secs := Picked(rows, order);
    forall f | 0 <= f < 9 ensures Column(secs, f) == ValuesOf(rows, order, f) {}
    if s :| s in secs && s.completed {
      var i :| 0 <= i < |secs| && secs[i] == s;
      var id := order[i];
      assert id in order && id in rows && rows[id].completed;
    }
    if id :| id in order && id in rows && rows[id].completed {
      var i :| 0 <= i < |order| && order[i] == id;
      assert secs[i] in secs;
    }
  }

  /** The citation count of the merged row is the largest among all of them, a missing one counting as zero. */
  lemma {:induction false} MostCitedIsLargest(p: Row, secs: seq<Row>)
    ensures forall r :: (r == p || r in secs) && r.citations.Some? ==> r.citations.value <= MostCited(p, secs)
    ensures MostCited(p, secs) == 0 || exists r :: (r == p || r in secs) && r.citations == Some(MostCited(p, secs))
  {
    if secs != [] {
      var before, last := secs[..|secs| - 1], secs[|secs| - 1];
      MostCitedIsLargest(p, before);
      assert secs == before + [last];
      assert forall r :: r in before ==> r in secs;
      assert last in secs;
    }
  }

  method CountCitations(p: Row, secs: seq<Row>) returns (most: nat)
    ensures most == MostCited(p, secs)
  {
    most := Count(p);
    for i := 0 to |secs|
      invariant most == MostCited(p, secs[..i])
    {
      assert secs[..i + 1][..i] == secs[..i];
      if Count(secs[i]) > most {
        most := Count(secs[i]);
      }
    }
    assert secs[..|secs|] == secs;
  }

  /** The loops over `_MERGE_FIELDS` and the secondaries. */
  method MergeFields(p: Row, secs: seq<Row>, strategy: Strategy) returns (fields: seq<Field>)
    ensures fields == MergedRow(strategy, p, secs).fields
  {
    fields := p.fields;
    for f := 0 to FIELDS
      invariant |fields| == FIELDS
      invariant forall g :: 0 <= g < f ==> fields[g] == AbsorbAll(strategy, p.fields[g], Column(secs, g))
      invariant forall g :: f <= g < FIELDS ==> fields[g] == p.fields[g]
    {
      ghost var column := Column(secs, f);
      var value := fields[f];
      for i := 0 to |secs|
        invariant |fields| == FIELDS
        invariant value == fields[f] == AbsorbAll(strategy, p.fields[f], column[..i])
        invariant forall g :: 0 <= g < f ==> fields[g] == AbsorbAll(strategy, p.fields[g], Column(secs, g))
        invariant forall g :: f < g < FIELDS ==> fields[g] == p.fields[g]
      {
        assert column[..i + 1][..i] == column[..i];
        var sec := secs[i].fields[f];
        if !Filled(sec) {
          continue;
        }
        if strategy == KeepPrimary {
          KeepPrimaryKeeps(strategy, p.fields[f], column[..i]);
          break;
        } else if strategy == KeepNonEmpty {
          if !Filled(value) {
            fields, value := fields[f := sec], sec;
          }
        } else if strategy == KeepLongest {
          if Length(sec) > Length(value) {
            fields, value := fields[f := sec], sec;
          }
        }
      }
      if strategy == KeepPrimary {
        KeepPrimaryKeeps(strategy, p.fields[f], column);
      }
      assert column[..|column|] == column;
    }
  }

  // ── What each strategy keeps ────────────────────────────────────────────

  /** The primary's own value stays under `keep_primary`, and under any strategy name the code does not know. */
  lemma {:induction false} KeepPrimaryKeeps(strategy: Strategy, v: Field, secs: seq<Field>)
    requires strategy == KeepPrimary || strategy == Other
    ensures AbsorbAll(strategy, v, secs) == v
  {
    if secs != [] {
      KeepPrimaryKeeps(strategy, v, secs[..|secs| - 1]);
    }
  }

  ghost predicate FirstFilled(secs: seq<Field>, i: int) {
    0 <= i < |secs| && Filled(secs[i]) && forall k :: 0 <= k < i ==> !Filled(secs[k])
  }

  /** `keep_non_empty`: a filled primary value stays, an empty one is replaced by the first filled secondary
      value, and stays as it is when there is none. */
  lemma {:induction false} KeepNonEmptyTakesFirst(v: Field, secs: seq<Field>)
    ensures var r := AbsorbAll(KeepNonEmpty, v, secs);
            && (Filled(v) ==> r == v)
            && (!Filled(v) ==> forall i :: FirstFilled(secs, i) ==> r == secs[i])
            && (!Filled(v) && (forall s :: s in secs ==> !Filled(s)) ==> r == v)
            && (Filled(r) <==> Filled(v) || exists s :: s in secs && Filled(s))
    ensures v != None && v != Some("") ==> AbsorbAll(KeepNonEmpty, v, secs) == v
    ensures v == None || v == Some("") ==>
              forall i :: 0 <= i < |secs| && secs[i] != None && secs[i] != Some("")
                          && (forall k :: 0 <= k < i ==> secs[k] == None || secs[k] == Some("")) ==>
                AbsorbAll(KeepNonEmpty, v, secs) == secs[i]
  {
    if secs != [] {
      var before, last := secs[..|secs| - 1], secs[|secs| - 1];
      KeepNonEmptyTakesFirst(v, before);
      assert secs == before + [last];
      if !Filled(v) {
        forall i | FirstFilled(secs, i) ensures AbsorbAll(KeepNonEmpty, v, secs) == secs[i] {
          if i < |before| {
            assert FirstFilled(before, i) && before[i] in before;
          } else {
            assert forall s :: s in before ==> !Filled(s);
          }
        }
      }
    }
  }

  /** `keep_longest`: the result is one of the values, none is longer, and on a tie the primary's own stays. */
  lemma {:induction false} KeepLongestIsLongest(v: Field, secs: seq<Field>)
    ensures var r := AbsorbAll(KeepLongest, v, secs);
            && (r == v || r in secs) && Length(v) <= Length(r)
            && (forall s :: s in secs ==> Length(s) <= Length(r))
            && (Length(r) == Length(v) ==> r == v)
    ensures var r := AbsorbAll(KeepLongest, v, secs);
            && (forall s :: s in secs && s.Some? && s.value != "" ==> r.Some? && |s.value| <= |r.value|)
            && (v.Some? && r.Some? && |r.value| == |v.value| ==> r == v)
  {
    if secs != [] {
      KeepLongestIsLongest(v, secs[..|secs| - 1]);
      assert secs == secs[..|secs| - 1] + [secs[|secs| - 1]];
    }
  }

  // ── The order of the query ──────────────────────────────────────────────

  ghost predicate Agree(secs: seq<Field>) {
    forall s, t :: s in secs && t in secs && Filled(s) && Filled(t) ==> s == t
  }

  ghost predicate OrderIrrelevant(strategy: Strategy, v: Field, secs: seq<Field>) {
    forall other: seq<Field> :: multiset(other) == multiset(secs) ==>
      AbsorbAll(strategy, v, other) == AbsorbAll(strategy, v, secs)
  }

  /** The query has no ORDER BY. Under `keep_non_empty` the merged value is the same for every row order exactly
      when the primary's value is filled or all filled secondary values agree. */
  lemma OrderMattersExactly(v: Field, secs: seq<Field>)
    ensures OrderIrrelevant(KeepNonEmpty, v, secs) <==> Filled(v) || Agree(secs)
  {
    if Filled(v) || Agree(secs) {
      forall other: seq<Field> | multiset(other) == multiset(secs)
        ensures AbsorbAll(KeepNonEmpty, v, other) == AbsorbAll(KeepNonEmpty, v, secs)
      {
        SameWhenAgreeing(v, secs, other);
      }
    } else {
      var s, t :| s in secs && t in secs && Filled(s) && Filled(t) && s != t;
      var a := ToFront(secs, s);
      var b := ToFront(secs, t);
      KeepNonEmptyTakesFirst(v, a);
      KeepNonEmptyTakesFirst(v, b);
      assert FirstFilled(a, 0) && FirstFilled(b, 0);
    }
  }

  lemma SameWhenAgreeing(v: Field, secs: seq<Field>, other: seq<Field>)
    requires multiset(other) == multiset(secs) && (Filled(v) || Agree(secs))
    ensures AbsorbAll(KeepNonEmpty, v, other) == AbsorbAll(KeepNonEmpty, v, secs)
  {
    KeepNonEmptyTakesFirst(v, secs);
    KeepNonEmptyTakesFirst(v, other);
    SameMembers(secs, other);
    if !Filled(v) && exists s :: s in secs && Filled(s) {
      var i := FindFirst(secs);
      var j := FindFirst(other);
      assert secs[i] in secs && other[j] in other;
    }
  }

  lemma FindFirst(secs: seq<Field>) returns (i: nat)
    requires exists s :: s in secs && Filled(s)
    ensures FirstFilled(secs, i)
  {
    var w :| 0 <= w < |secs| && Filled(secs[w]);
    i := 0;
    while !Filled(secs[i])
      invariant i <= w && forall k :: 0 <= k < i ==> !Filled(secs[k])
      decreases w - i
    {
      i := i + 1;
    }
  }

  lemma ToFront(secs: seq<Field>, s: Field) returns (moved: seq<Field>)
    requires s in secs
    ensures multiset(moved) == multiset(secs) && |moved| > 0 && moved[0] == s
  {
    var i :| 0 <= i < |secs| && secs[i] == s;
    moved := [s] + secs[..i] + secs[i + 1..];
    assert secs == secs[..i] + [s] + secs[i + 1..];
  }

  ghost predicate IsLongest(secs: seq<Field>, s: Field) {
    s in secs && forall u :: u in secs ==> Length(u) <= Length(s)
  }

  /** At most one value is a longest one that beats the primary's. */
  ghost predicate LongestAgree(v: Field, secs: seq<Field>) {
    forall s, t :: IsLongest(secs, s) && IsLongest(secs, t) && Length(s) > Length(v) ==> s == t
  }

  lemma {:induction false} LongestFirstWins(v: Field, secs: seq<Field>)
    requires secs != [] && Length(secs[0]) > Length(v)
    requires forall k :: 0 <= k < |secs| ==> Length(secs[k]) <= Length(secs[0])
    ensures AbsorbAll(KeepLongest, v, secs) == secs[0]
  {
    var before := secs[..|secs| - 1];
    if before == [] {
      assert AbsorbAll(KeepLongest, v, before) == v;
    } else {
      assert before[0] == secs[0];
      LongestFirstWins(v, before);
    }
    assert AbsorbAll(KeepLongest, v, secs)
           == Absorb(KeepLongest, AbsorbAll(KeepLongest, v, before), secs[|secs| - 1]);
  }

  /** Under `keep_longest` the order does not matter exactly when no two different values tie for longest above the
      primary's value. */
  lemma LongestOrderExactly(v: Field, secs: seq<Field>)
    ensures OrderIrrelevant(KeepLongest, v, secs) <==> LongestAgree(v, secs)
  {
    if LongestAgree(v, secs) {
      forall other: seq<Field> | multiset(other) == multiset(secs)
        ensures AbsorbAll(KeepLongest, v, other) == AbsorbAll(KeepLongest, v, secs)
      {
        SameLongest(v, secs, other);
      }
    } else {
      var s, t :| IsLongest(secs, s) && IsLongest(secs, t) && Length(s) > Length(v) && s != t;
      var a := ToFront(secs, s);
      var b := ToFront(secs, t);
      SameMembers(secs, a);
      SameMembers(secs, b);
      assert forall k :: 0 <= k < |a| ==> a[k] in a;
      assert forall k :: 0 <= k < |b| ==> b[k] in b;
      LongestFirstWins(v, a);
      LongestFirstWins(v, b);
    }
  }

  lemma SameLongest(v: Field, secs: seq<Field>, other: seq<Field>)
    requires multiset(other) == multiset(secs) && LongestAgree(v, secs)
    ensures AbsorbAll(KeepLongest, v, other) == AbsorbAll(KeepLongest, v, secs)
  {
    KeepLongestIsLongest(v, secs);
    KeepLongestIsLongest(v, other);
    SameMembers(secs, other);
    hide AbsorbAll, Length;
    var r, q := AbsorbAll(KeepLongest, v, secs), AbsorbAll(KeepLongest, v, other);
    if r == v {
      assert Length(q) <= Length(v);
    } else {
      assert Length(r) > Length(v) && IsLongest(secs, r);
      assert q in secs && IsLongest(secs, q);
    }
  }

  lemma SameMembers(secs: seq<Field>, other: seq<Field>)
    requires multiset(other) == multiset(secs)
    ensures forall s :: s in other <==> s in secs
  {
    forall s ensures s in other <==> s in secs {
      assert s in multiset(other) <==> s in multiset(secs);
    }
  }

  // ── Merging in steps ────────────────────────────────────────────────────

  lemma {:induction false} AbsorbInSteps(strategy: Strategy, v: Field, a: seq<Field>, b: seq<Field>)
    ensures AbsorbAll(strategy, v, a + b) == AbsorbAll(strategy, AbsorbAll(strategy, v, a), b)
  {
    if b == [] {
      assert a + b == a;
    } else {
      AbsorbInSteps(strategy, v, a, b[..|b| - 1]);
      assert (a + b)[..|a + b| - 1] == a + b[..|b| - 1];
    }
  }

  lemma {:induction false} CitationsInSteps(p: Row, q: Row, a: seq<Row>, b: seq<Row>)
    requires Count(q) == MostCited(p, a)
    ensures MostCited(p, a + b) == MostCited(q, b)
  {
    if b == [] {
      assert a + b == a;
    } else {
      CitationsInSteps(p, q, a, b[..|b| - 1]);
      assert (a + b)[..|a + b| - 1] == a + b[..|b| - 1];
    }
  }

  /** Absorbing one group of rows and then another is absorbing both at once. */
  lemma RowInSteps(strategy: Strategy, p: Row, a: seq<Row>, b: seq<Row>)
    ensures MergedRow(strategy, MergedRow(strategy, p, a), b) == MergedRow(strategy, p, a + b)
  {
    var q := MergedRow(strategy, p, a);
    var both, steps := MergedRow(strategy, p, a + b), MergedRow(strategy, q, b);
    forall f | 0 <= f < FIELDS ensures both.fields[f] == steps.fields[f] {
      assert Column(a + b, f) == Column(a, f) + Column(b, f);
      AbsorbInSteps(strategy, p.fields[f], Column(a, f), Column(b, f));
    }
    assert both.fields == steps.fields;
    CitationsInSteps(p, q, a, b);
  }

  lemma MembersOfBoth(a: seq<int>, b: seq<int>)
    ensures forall id :: id in a + b <==> id in a || id in b
  {}

  /** The whole table after two merges into one primary is the table after one merge with both groups. */
  lemma MergeInSteps(strategy: Strategy, rows: Rows, primary: int, a: seq<int>, b: seq<int>)
    requires primary in rows && primary !in a + b
    requires AllIn(rows, a) && AllIn(rows, b) && AllIn(rows, a + b)
    requires forall i :: 0 <= i < |b| ==> b[i] !in a
    ensures primary !in a && primary !in b
    ensures var once := MergedRows(strategy, rows, primary, a);
            && primary in once && AllIn(once, b)
            && MergedRows(strategy, once, primary, b) == MergedRows(strategy, rows, primary, a + b)
  {
    hide MergedRow;
    MembersOfBoth(a, b);
    OnceKeepsOthers(strategy, rows, primary, a, b);
    var once := MergedRows(strategy, rows, primary, a);
    RowInSteps(strategy, rows[primary], Picked(rows, a), Picked(rows, b));
    PickedBoth(rows, a, b);
    var twice, whole := MergedRows(strategy, once, primary, b), MergedRows(strategy, rows, primary, a + b);
    forall id ensures id in twice <==> id in whole {
      assert id in a + b <==> id in a || id in b;
    }
    assert forall id :: id in twice ==> twice[id] == whole[id];
    assert twice == whole;
  }

  lemma PickedBoth(rows: Rows, a: seq<int>, b: seq<int>)
    requires AllIn(rows, a) && AllIn(rows, b) && AllIn(rows, a + b)
    ensures Picked(rows, a + b) == Picked(rows, a) + Picked(rows, b)
  {}

  lemma OnceKeepsOthers(strategy: Strategy, rows: Rows, primary: int, a: seq<int>, b: seq<int>)
    requires primary in rows && primary !in a && primary !in b && AllIn(rows, a) && AllIn(rows, b)
    requires forall i :: 0 <= i < |b| ==> b[i] !in a
    ensures var once := MergedRows(strategy, rows, primary, a);
            primary in once && AllIn(once, b) && Picked(once, b) == Picked(rows, b)
  {
    hide MergedRow;
    var once := MergedRows(strategy, rows, primary, a);
    forall i | 0 <= i < |b| ensures b[i] in once && once[b[i]] == rows[b[i]] {
      assert b[i] in b;
    }
  }

  // ── The reported number of deleted rows ─────────────────────────────────

  /** The endpoint reports the length of its id list as the number of deleted rows. That is the number of rows
      deleted exactly when every id names a row and none is repeated. */
  lemma ReportedDeletionsExactly(rows: Rows, ids: seq<int>, order: seq<int>)
    requires Selects(rows, ids, order)
    ensures |order| == |ids| <==> Distinct(ids) && forall id :: id in ids ==> id in rows
  {
    FullWhenDistinct(order);
    FullWhenDistinct(ids);
    forall id | id in Members(order) ensures id in Members(ids) {}
    SubsetSize(Members(order), Members(ids));
    if forall id :: id in ids ==> id in rows {
      forall id ensures id in Members(order) <==> id in Members(ids) {}
      assert Members(order) == Members(ids);
    }
    if |order| == |ids| {
      forall id | id in ids ensures id in rows {
        assert id in Members(ids) && id in Members(order);
      }
    }
  }

  function Members(ids: seq<int>): set<int> {
    set id | id in ids
  }

  ghost predicate Distinct(ids: seq<int>) {
    forall i, j :: 0 <= i < j < |ids| ==> ids[i] != ids[j]
  }

  lemma {:induction false} FullWhenDistinct(ids: seq<int>)
    ensures |Members(ids)| <= |ids|
    ensures |Members(ids)| == |ids| <==> Distinct(ids)
  {
    if ids != [] {
      var before, last := ids[..|ids| - 1], ids[|ids| - 1];
      FullWhenDistinct(before);
      assert ids == before + [last];
      assert Members(ids) == Members(before) + {last};
      if last in before {
        assert Members(ids) == Members(before);
      }
    }
  }
}
