/** What holds of the coauthor tables over every run of writes, entity deletions and recomputations: scopes agree and
    every edge weight is accounted for. Of the writes alone: a repeated one changes nothing, and those for different
    entities commute. */
module CoauthorLaws {
  import opened Sets
  import opened CoauthorLedger

  // ── Runs, with the deletions remembered ─────────────────────────────────

  /** What happens to the tables: a write; the deletion of an entity, which takes its publications and contributions
      with it but leaves edges and marks; a recomputation of a scope's statistics, which clears its mark. */
  datatype Change = Write(w: Request) | Delete(entity: int) | Recompute(scope: Scope)

  /** The tables, how many contributions were deleted under each edge key, and the scopes they were deleted from. */
  datatype History = History(tables: Tables, lost: map<EdgeKey, nat>, vacated: set<Scope>)

  const NO_TABLES := Tables(map[], map[], map[], map[])

  ghost predicate Takes(t: Tables, w: Request) {
    |w.authors| >= 2 && !Aborts(t, w)
  }

  /** The edge keys of the contributions of entity `e`. */
  function KeysOf(t: Tables, e: int): set<EdgeKey> {
    set c | c in t.contribs && c.entity == e :: EdgeKey(c.a, c.b, t.contribs[c])
  }

  /** The edge keys whose contribution from its entity a write deletes, by a reassignment. */
  function Deleted(t: Tables, w: Request): set<EdgeKey> {
    if Reassigns(t, w) then KeysOf(t, w.entity) else {}
  }

  function Left(t: Tables, w: Request): set<Scope> {
    if Reassigns(t, w) then PriorScopes(t, w.entity) else {}
  }

  function Without(t: Tables, e: int): Tables {
    t.(pubs := map k | k in t.pubs && k.entity != e :: t.pubs[k],
       contribs := map c | c in t.contribs && c.entity != e :: t.contribs[c])
  }

  ghost function OneMoreEach(lost: map<EdgeKey, nat>, gone: set<EdgeKey>): map<EdgeKey, nat> {
    map k | k in lost.Keys + gone :: Weight(lost, k) + (if k in gone then 1 else 0)
  }

  ghost function AfterWrite(h: History, w: Request): History {
    if !Takes(h.tables, w) then h
    else
      History(After(h.tables, w), OneMoreEach(h.lost, Deleted(h.tables, w)), h.vacated + Left(h.tables, w))
  }

  ghost function AfterDelete(h: History, e: int): History {
    History(Without(h.tables, e), OneMoreEach(h.lost, KeysOf(h.tables, e)), h.vacated + PriorScopes(h.tables, e))
  }

  ghost function Next(h: History, a: Change): History {
    match a
    case Write(w) => AfterWrite(h, w)
    case Delete(e) => AfterDelete(h, e)
    case Recompute(scope) => h.(tables := h.tables.(dirty := h.tables.dirty - {scope}))
  }

  ghost function Run(changes: seq<Change>): History {
    if changes == [] then History(NO_TABLES, map[], {})
    else Next(Run(changes[..|changes| - 1]), changes[|changes| - 1])
  }

  // ── The invariant ───────────────────────────────────────────────────────

  /** All publications of one entity are in one scope. */
  ghost predicate OneScope(pubs: map<PubKey, Publication>) {
    forall j, k :: j in pubs && k in pubs && j.entity == k.entity ==> pubs[j].scope == pubs[k].scope
  }

  /** A contribution is an ordered pair of authors of the entity, in the scope of their publications. */
  ghost predicate Contributed(pubs: map<PubKey, Publication>, contribs: map<ContribKey, Scope>) {
    forall c :: c in contribs ==>
      && c.a < c.b
      && PubKey(c.a, c.entity) in pubs && pubs[PubKey(c.a, c.entity)].scope == contribs[c]
      && PubKey(c.b, c.entity) in pubs && pubs[PubKey(c.b, c.entity)].scope == contribs[c]
  }

  ghost predicate EdgesOrdered(edges: map<EdgeKey, nat>) {
    forall k :: k in edges ==> k.a < k.b && edges[k] > 0
  }

  /** The contributions filed under edge key `k`. */
  function Contributors(contribs: map<ContribKey, Scope>, k: EdgeKey): set<ContribKey> {
    set c | c in contribs && c.a == k.a && c.b == k.b && contribs[c] == k.scope
  }

  /** Each weight is the number of contributions under its key plus those deleted from it. */
  ghost predicate Balanced(h: History) {
    forall k :: Weight(h.tables.edges, k) == |Contributors(h.tables.contribs, k)| + Weight(h.lost, k)
  }

  /** Only scopes that an entity left, by a reassignment or a deletion, hold excess weight. */
  ghost predicate ExcessIsVacated(h: History) {
    forall k :: Weight(h.lost, k) > 0 ==> k.scope in h.vacated
  }

  /** Scopes that hold excess weight are marked dirty. */
  ghost predicate ExcessIsMarked(h: History) {
    forall k :: Weight(h.lost, k) > 0 ==> k.scope in h.tables.dirty
  }

  ghost predicate Sound(h: History) {
    && OneScope(h.tables.pubs)
    && Contributed(h.tables.pubs, h.tables.contribs)
    && EdgesOrdered(h.tables.edges)
    && Balanced(h)
    && ExcessIsVacated(h)
  }

  lemma BalanceKept(h: History, w: Request, k: EdgeKey)
    requires Takes(h.tables, w)
    requires Weight(h.tables.edges, k) == |Contributors(h.tables.contribs, k)| + Weight(h.lost, k)
    ensures var h' := AfterWrite(h, w);
            Weight(h'.tables.edges, k) == |Contributors(h'.tables.contribs, k)| + Weight(h'.lost, k)
  {
    var t, e, scope := h.tables, w.entity, ScopeOf(w);
    var kept, pairs, mine := KeptContribs(t, w), PairsOf(AuthorsOf(w)), ContribKey(e, k.a, k.b);
    ContributorsKept(t, w, k);
    ContributorsLogged(kept, e, pairs, scope, k);
    CreditedWeight(t.edges, Novel(kept, e, pairs), scope, k);
    LostWeight(h, w, k);
  }

  lemma ContributorsKept(t: Tables, w: Request, k: EdgeKey)
    ensures |Contributors(t.contribs, k)|
            == |Contributors(KeptContribs(t, w), k)| + (if k in Deleted(t, w) then 1 else 0)
  {
    if Reassigns(t, w) {
      ContributorsWithout(t, w.entity, k);
    }
  }

  lemma ContributorsWithout(t: Tables, e: int, k: EdgeKey)
    ensures |Contributors(t.contribs, k)|
            == |Contributors(Without(t, e).contribs, k)| + (if k in KeysOf(t, e) then 1 else 0)
  {
    var contribs, kept, mine := t.contribs, Without(t, e).contribs, ContribKey(e, k.a, k.b);
    if mine in contribs && contribs[mine] == k.scope {
      assert k == EdgeKey(mine.a, mine.b, contribs[mine]);
      assert Contributors(contribs, k) == Contributors(kept, k) + {mine};
    } else {
      forall c | c in contribs && c.entity == e ensures k != EdgeKey(c.a, c.b, contribs[c]) {
        assert c == ContribKey(e, c.a, c.b);
      }
      assert Contributors(contribs, k) == Contributors(kept, k);
    }
  }

  lemma ContributorsLogged(kept: map<ContribKey, Scope>, e: int, pairs: set<Pair>, scope: Scope, k: EdgeKey)
    ensures |Contributors(Logged(kept, e, pairs, scope), k)|
            == |Contributors(kept, k)| + (if k.scope == scope && Pair(k.a, k.b) in Novel(kept, e, pairs) then 1 else 0)
  {
    assert ContribKey(e, k.a, k.b) in kept ==> Pair(k.a, k.b) !in Novel(kept, e, pairs);
    var mine, logged := ContribKey(e, k.a, k.b), Logged(kept, e, pairs, scope);
    var gains := k.scope == scope && Pair(k.a, k.b) in Novel(kept, e, pairs);
    var before, after := Contributors(kept, k), Contributors(logged, k);
    assert Pair(mine.a, mine.b) == Pair(k.a, k.b);
    forall c ensures c in after <==> c in before || (gains && c == mine) {
      if c in logged && c !in kept {
        assert Pair(c.a, c.b) in pairs;
      }
    }
    hide Logged, Novel, Contributors;
    if gains {
      assert after == before + {mine};
    } else {
      assert after == before;
    }
  }

  lemma CreditedWeight(edges: map<EdgeKey, nat>, novel: set<Pair>, scope: Scope, k: EdgeKey)
    ensures Weight(Credited(edges, novel, scope), k)
            == Weight(edges, k) + (if k.scope == scope && Pair(k.a, k.b) in novel then 1 else 0)
  {
    var p := Pair(k.a, k.b);
    assert EdgeKey(p.a, p.b, k.scope) == k;
  }

  lemma LostWeight(h: History, w: Request, k: EdgeKey)
    requires Takes(h.tables, w)
    ensures Weight(AfterWrite(h, w).lost, k) == Weight(h.lost, k) + (if k in Deleted(h.tables, w) then 1 else 0)
  {}

  lemma ScopesKept(t: Tables, w: Request)
    requires OneScope(t.pubs) && Takes(t, w)
    ensures OneScope(After(t, w).pubs)
    ensures forall k :: k in After(t, w).pubs && k.entity == w.entity ==> After(t, w).pubs[k].scope == ScopeOf(w)
    ensures forall k :: k in After(t, w).pubs && k.entity != w.entity ==> k in t.pubs && After(t, w).pubs[k] == t.pubs[k]
    ensures forall k :: k in t.pubs ==> k in After(t, w).pubs
    ensures forall x :: x in AuthorsOf(w) ==> PubKey(x, w.entity) in After(t, w).pubs
  {
    var moved := MovedPubs(t, w);
    forall k | k in moved && k.entity == w.entity ensures moved[k].scope == ScopeOf(w) {
      assert t.pubs[k].scope in PriorScopes(t, w.entity);
      if !Reassigns(t, w) {
        var j :| j in t.pubs && j.entity == w.entity && t.pubs[j].scope == ScopeOf(w);
      }
    }
  }

  lemma ContributionsKept(t: Tables, w: Request)
    requires OneScope(t.pubs) && Contributed(t.pubs, t.contribs) && Takes(t, w)
    ensures Contributed(After(t, w).pubs, After(t, w).contribs)
  {
    ScopesKept(t, w);
    var t' := After(t, w);
    var kept := KeptContribs(t, w);
    forall c | c in t'.contribs
      ensures c.a < c.b
      ensures PubKey(c.a, c.entity) in t'.pubs && t'.pubs[PubKey(c.a, c.entity)].scope == t'.contribs[c]
      ensures PubKey(c.b, c.entity) in t'.pubs && t'.pubs[PubKey(c.b, c.entity)].scope == t'.contribs[c]
    {
      if c in kept {
        assert c in t.contribs && t.contribs[c] == t'.contribs[c];
        if c.entity == w.entity {
          assert t.pubs[PubKey(c.a, c.entity)].scope in PriorScopes(t, w.entity);
          assert !Reassigns(t, w);
          assert MovedPubs(t, w) == t.pubs;
        }
      } else {
        assert c.entity == w.entity && Pair(c.a, c.b) in PairsOf(AuthorsOf(w));
      }
    }
  }

  lemma EdgesKeptOrdered(t: Tables, w: Request)
    requires EdgesOrdered(t.edges) && Takes(t, w)
    ensures EdgesOrdered(After(t, w).edges)
  {}

  lemma VacatedKept(h: History, w: Request)
    requires ExcessIsVacated(h) && Takes(h.tables, w) && Contributed(h.tables.pubs, h.tables.contribs)
    ensures ExcessIsVacated(AfterWrite(h, w))
  {
    var h' := AfterWrite(h, w);
    forall k | Weight(h'.lost, k) > 0 ensures k.scope in h'.vacated {
      LostWeight(h, w, k);
      if k in Deleted(h.tables, w) {
        KeysAreInPriorScopes(h.tables, w.entity, k);
      }
    }
  }

  lemma KeysAreInPriorScopes(t: Tables, e: int, k: EdgeKey)
    requires Contributed(t.pubs, t.contribs) && k in KeysOf(t, e)
    ensures k.scope in PriorScopes(t, e)
  {
    var c :| c in t.contribs && c.entity == e && k == EdgeKey(c.a, c.b, t.contribs[c]);
    assert t.pubs[PubKey(c.a, c.entity)].scope in PriorScopes(t, e);
  }

  lemma WriteIsSound(h: History, w: Request)
    requires Sound(h)
    ensures Sound(AfterWrite(h, w))
  {
    if Takes(h.tables, w) {
      ScopesKept(h.tables, w);
      ContributionsKept(h.tables, w);
      EdgesKeptOrdered(h.tables, w);
      forall k {:trigger Weight(AfterWrite(h, w).tables.edges, k)}
        ensures Weight(AfterWrite(h, w).tables.edges, k)
                == |Contributors(AfterWrite(h, w).tables.contribs, k)| + Weight(AfterWrite(h, w).lost, k)
      {
        BalanceKept(h, w, k);
      }
      VacatedKept(h, w);
    }
  }

  /** A deletion moves the entity's contributions to the excess: weights stay what they were. */
  lemma DeleteIsSound(h: History, e: int)
    requires Sound(h)
    ensures Sound(AfterDelete(h, e))
  {
    var h' := AfterDelete(h, e);
    forall k {:trigger Weight(h'.tables.edges, k)}
      ensures Weight(h'.tables.edges, k) == |Contributors(h'.tables.contribs, k)| + Weight(h'.lost, k)
    {
      ContributorsWithout(h.tables, e, k);
    }
    forall k | Weight(h'.lost, k) > 0 ensures k.scope in h'.vacated {
      if k in KeysOf(h.tables, e) {
        KeysAreInPriorScopes(h.tables, e, k);
      }
    }
  }

  lemma SoundKept(h: History, a: Change)
    requires Sound(h)
    ensures Sound(Next(h, a))
  {
    match a
    case Write(w) => WriteIsSound(h, w);
    case Delete(e) => DeleteIsSound(h, e);
    case Recompute(_) =>
  }

  /** The ledger law, over every sequence of changes. */
  lemma {:induction false} RunSound(changes: seq<Change>)
    ensures Sound(Run(changes))
  {
    if changes == [] {
      assert Sound(History(NO_TABLES, map[], {}));
    } else {
      hide Next, Sound;
      RunSound(changes[..|changes| - 1]);
      SoundKept(Run(changes[..|changes| - 1]), changes[|changes| - 1]);
    }
  }

  // ── Where excess weight stays marked ────────────────────────────────────

  /** A write always; a deletion if the scopes of the entity's contributions are marked already; a recomputation of a
      scope without excess. */
  ghost predicate KeepsMarks(h: History, a: Change) {
    match a
    case Write(_) => true
    case Delete(e) => forall c :: c in h.tables.contribs && c.entity == e ==> h.tables.contribs[c] in h.tables.dirty
    case Recompute(scope) => forall k :: Weight(h.lost, k) > 0 ==> k.scope != scope
  }

  lemma MarksKeptExactly(h: History, a: Change)
    requires Sound(h) && ExcessIsMarked(h)
    ensures ExcessIsMarked(Next(h, a)) <==> KeepsMarks(h, a)
  {
    match a
    case Write(w) => WriteKeepsMarks(h, w);
    case Delete(e) => DeleteKeepsMarksExactly(h, e);
    case Recompute(_) =>
  }

  lemma WriteKeepsMarks(h: History, w: Request)
    requires Sound(h) && ExcessIsMarked(h)
    ensures ExcessIsMarked(AfterWrite(h, w))
  {
    if Takes(h.tables, w) {
      var h' := AfterWrite(h, w);
      assert h'.tables.dirty.Keys == h.tables.dirty.Keys + Left(h.tables, w) + {ScopeOf(w)};
      forall k | Weight(h'.lost, k) > 0 ensures k.scope in h'.tables.dirty {
        LostWeight(h, w, k);
        if k in Deleted(h.tables, w) {
          KeysAreInPriorScopes(h.tables, w.entity, k);
        }
      }
    }
  }

  lemma DeleteKeepsMarksExactly(h: History, e: int)
    requires ExcessIsMarked(h)
    ensures ExcessIsMarked(AfterDelete(h, e)) <==> KeepsMarks(h, Delete(e))
  {
    var h' := AfterDelete(h, e);
    if ExcessIsMarked(h') {
      forall c | c in h.tables.contribs && c.entity == e ensures h.tables.contribs[c] in h.tables.dirty {
        var k := EdgeKey(c.a, c.b, h.tables.contribs[c]);
        assert k in KeysOf(h.tables, e) && Weight(h'.lost, k) > 0;
      }
    }
  }

  ghost predicate MarkedThroughout(changes: seq<Change>) {
    forall i :: 0 <= i <= |changes| ==> ExcessIsMarked(Run(changes[..i]))
  }

  ghost predicate AllKeepMarks(changes: seq<Change>) {
    forall i :: 0 <= i < |changes| ==> KeepsMarks(Run(changes[..i]), changes[i])
  }

  /** The excess is marked throughout a run exactly when each of its changes meets the condition in its turn. */
  lemma {:induction false} MarkedThroughoutExactly(changes: seq<Change>)
    ensures MarkedThroughout(changes) <==> AllKeepMarks(changes)
  {
    if changes == [] {
      NothingInExcess();
    } else {
      var before, last := changes[..|changes| - 1], changes[|changes| - 1];
      hide Run, Next, KeepsMarks, ExcessIsMarked, Sound, MarkedThroughout, AllKeepMarks;
      MarkedThroughoutExactly(before);
      OneChangeMore(changes);
      if ExcessIsMarked(Run(before)) {
        RunSound(before);
        RunNext(changes);
        MarksKeptExactly(Run(before), last);
      }
      MarkedNow(before);
      assert MarkedThroughout(changes) <==> AllKeepMarks(changes);
    }
  }

  lemma OneChangeMore(changes: seq<Change>)
    requires changes != []
    ensures var before := changes[..|changes| - 1];
            && (MarkedThroughout(changes) <==> MarkedThroughout(before) && ExcessIsMarked(Run(changes)))
            && (AllKeepMarks(changes) <==> AllKeepMarks(before) && KeepsMarks(Run(before), changes[|changes| - 1]))
  {
    hide Run, KeepsMarks, ExcessIsMarked;
    var n, before := |changes|, changes[..|changes| - 1];
    assert changes[..n] == changes;
    assert forall i :: 0 <= i < n ==> before[..i] == changes[..i];
    if MarkedThroughout(before) && ExcessIsMarked(Run(changes)) {
      forall i | 0 <= i <= n ensures ExcessIsMarked(Run(changes[..i])) {
        assert i < n ==> ExcessIsMarked(Run(before[..i]));
      }
    }
    if MarkedThroughout(changes) {
      forall i | 0 <= i <= n - 1 ensures ExcessIsMarked(Run(before[..i])) {
        assert before[..i] == changes[..i];
      }
    }
    assert AllKeepMarks(changes) <==> AllKeepMarks(before) && KeepsMarks(Run(before), changes[n - 1]);
  }

  lemma RunNext(changes: seq<Change>)
    requires changes != []
    ensures Run(changes) == Next(Run(changes[..|changes| - 1]), changes[|changes| - 1])
  {}

  lemma MarkedNow(changes: seq<Change>)
    ensures MarkedThroughout(changes) ==> ExcessIsMarked(Run(changes))
  {
    assert changes[..|changes|] == changes;
  }

  lemma NothingInExcess()
    ensures ExcessIsMarked(Run([]))
  {}

  ghost predicate ContributionsAreMarked(t: Tables) {
    forall c :: c in t.contribs ==> t.contribs[c] in t.dirty
  }

  /** In particular throughout every run of writes and deletions, since a write marks its scope. */
  lemma {:induction false} MarkedUntilRecomputed(changes: seq<Change>)
    requires forall a :: a in changes ==> !a.Recompute?
    ensures ExcessIsMarked(Run(changes)) && ContributionsAreMarked(Run(changes).tables)
  {
    if changes != [] {
      var before, last := changes[..|changes| - 1], changes[|changes| - 1];
      assert changes == before + [last];
      MarkedUntilRecomputed(before);
      RunSound(before);
      hide Sound, ExcessIsMarked, Run;
      MarksKeptExactly(Run(before), last);
      if last.Write? && Takes(Run(before).tables, last.w) {
        MarksCoverWrite(Run(before).tables, last.w);
      }
      assert ContributionsAreMarked(Next(Run(before), last).tables);
    }
  }

  lemma MarksCoverWrite(t: Tables, w: Request)
    requires ContributionsAreMarked(t) && Takes(t, w)
    ensures ContributionsAreMarked(After(t, w))
  {}

  /** Not beyond: once a scope has been recomputed, deleting an entity that contributed to it leaves weight that no mark
      points at. */
  lemma DeletionAfterRecompute(h: History, c: ContribKey)
    requires c in h.tables.contribs
    ensures var scope := h.tables.contribs[c];
            !ExcessIsMarked(Next(Next(h, Recompute(scope)), Delete(c.entity)))
  {
    var scope := h.tables.contribs[c];
    var cleared := Next(h, Recompute(scope));
    var k := EdgeKey(c.a, c.b, scope);
    assert k in KeysOf(cleared.tables, c.entity);
    assert Weight(Next(cleared, Delete(c.entity)).lost, k) > 0;
  }

  // ── A repeated write ────────────────────────────────────────────────────

  /** Writing the same entity again changes nothing at all, whether or not the first write went through. */
  lemma WriteTwice(t: Tables, w: Request)
    ensures After(After(t, w), w) == After(t, w)
  {
    if Takes(t, w) {
      var t' := After(t, w);
      SettledByWrite(t, w);
      RewriteIsQuiet(t', w);
    }
  }

  /** The entity is settled: in scope, all its authors published, all its pairs logged, its scope marked. */
  ghost predicate Settled(t: Tables, w: Request) {
    && !Reassigns(t, w)
    && (forall x :: x in AuthorsOf(w) ==> PubKey(x, w.entity) in t.pubs)
    && (forall p :: p in PairsOf(AuthorsOf(w)) ==> ContribKey(w.entity, p.a, p.b) in t.contribs)
    && ScopeOf(w) in t.dirty && t.dirty[ScopeOf(w)] == Enrichment
  }

  lemma SettledByWrite(t: Tables, w: Request)
    requires Takes(t, w)
    ensures Settled(After(t, w), w)
  {
    var t' := After(t, w);
    forall x | x in AuthorsOf(w) ensures PubKey(x, w.entity) in t'.pubs {}
    ScopePresent(t, w);
  }

  lemma ScopePresent(t: Tables, w: Request)
    requires Takes(t, w)
    ensures ScopeOf(w) in PriorScopes(After(t, w), w.entity)
  {
    var t' := After(t, w);
    if PriorScopes(t, w.entity) == {} {
      var key := PubKey(Retained(w)[0], w.entity);
      assert key.author in AuthorsOf(w);
      assert forall k :: k in t.pubs && k.entity == w.entity ==> t.pubs[k].scope in PriorScopes(t, w.entity);
      assert t'.pubs[key].scope == ScopeOf(w);
    } else {
      var s :| s in PriorScopes(t, w.entity) && (Reassigns(t, w) || s == ScopeOf(w));
      var k :| k in t.pubs && k.entity == w.entity && t.pubs[k].scope == s;
      assert t'.pubs[k].scope == ScopeOf(w);
    }
  }

  lemma RewriteIsQuiet(t: Tables, w: Request)
    requires Settled(t, w)
    ensures After(t, w) == t
  {
    if |w.authors| >= 2 {
      assert !Aborts(t, w) by {
        assert forall i :: 0 <= i < |Retained(w)| ==> Retained(w)[i] in AuthorsOf(w);
      }
      assert AddedPubs(t.pubs, Retained(w), w.entity, ScopeOf(w)) == t.pubs by {
        assert forall x :: x in Retained(w) ==> x in AuthorsOf(w);
      }
      var pairs := PairsOf(AuthorsOf(w));
      assert Novel(t.contribs, w.entity, pairs) == {};
      assert Logged(t.contribs, w.entity, pairs, ScopeOf(w)) == t.contribs;
      assert Credited(t.edges, {}, ScopeOf(w)) == t.edges;
      assert Marked(t, w) == t.dirty;
    }
  }

  // ── Writes for different entities ───────────────────────────────────────

  ghost predicate SameRows(a: Tables, b: Tables) {
    a.pubs == b.pubs && a.contribs == b.contribs && a.edges == b.edges && a.dirty.Keys == b.dirty.Keys
  }

  /** A write of another entity leaves this entity's rows, and so what its write does to them, alone. */
  lemma OtherWriteIsInvisible(t: Tables, w: Request, v: Request)
    requires w.entity != v.entity
    ensures forall k: PubKey :: k.entity == w.entity ==>
      (k in After(t, v).pubs <==> k in t.pubs) && (k in t.pubs ==> After(t, v).pubs[k] == t.pubs[k])
    ensures forall c: ContribKey :: c.entity == w.entity ==>
      (c in After(t, v).contribs <==> c in t.contribs) && (c in t.contribs ==> After(t, v).contribs[c] == t.contribs[c])
  {}

  lemma SameDecisions(t: Tables, w: Request, v: Request)
    requires w.entity != v.entity
    ensures PriorScopes(After(t, v), w.entity) == PriorScopes(t, w.entity)
    ensures Takes(After(t, v), w) <==> Takes(t, w)
    ensures Novel(KeptContribs(After(t, v), w), w.entity, PairsOf(AuthorsOf(w)))
            == Novel(KeptContribs(t, w), w.entity, PairsOf(AuthorsOf(w)))
  {
    OtherWriteIsInvisible(t, w, v);
    hide After;
    var t' := After(t, v);
    forall s ensures s in PriorScopes(t', w.entity) <==> s in PriorScopes(t, w.entity) {
      if s in PriorScopes(t, w.entity) {
        var k :| k in t.pubs && k.entity == w.entity && t.pubs[k].scope == s;
        assert t'.pubs[k].scope == s;
      }
      if s in PriorScopes(t', w.entity) {
        var k :| k in t'.pubs && k.entity == w.entity && t'.pubs[k].scope == s;
        assert t.pubs[k].scope == s;
      }
    }
  }

  lemma CreditsCommute(edges: map<EdgeKey, nat>, n1: set<Pair>, s1: Scope, n2: set<Pair>, s2: Scope)
    ensures Credited(Credited(edges, n1, s1), n2, s2) == Credited(Credited(edges, n2, s2), n1, s1)
  {
    var a, b := Credited(Credited(edges, n1, s1), n2, s2), Credited(Credited(edges, n2, s2), n1, s1);
    hide Credited;
    forall k ensures (k in a <==> k in b) && Weight(a, k) == Weight(b, k) {
      CreditedAt(edges, n1, s1, k);
      CreditedAt(edges, n2, s2, k);
      CreditedAt(Credited(edges, n1, s1), n2, s2, k);
      CreditedAt(Credited(edges, n2, s2), n1, s1, k);
    }
    assert forall k :: k in a ==> a[k] == Weight(a, k) && b[k] == Weight(b, k);
    assert a == b;
  }

  lemma CreditedAt(edges: map<EdgeKey, nat>, novel: set<Pair>, scope: Scope, k: EdgeKey)
    ensures k in Credited(edges, novel, scope) <==> k in edges || (k.scope == scope && Pair(k.a, k.b) in novel)
    ensures Weight(Credited(edges, novel, scope), k)
            == Weight(edges, k) + (if k.scope == scope && Pair(k.a, k.b) in novel then 1 else 0)
  {
    CreditedWeight(edges, novel, scope, k);
    assert k == EdgeKey(Pair(k.a, k.b).a, Pair(k.a, k.b).b, k.scope);
  }

  // What one write does to each table, given whether it reassigns.

  ghost function PubsOp(pubs: map<PubKey, Publication>, moves: bool, ids: seq<int>, e: int, scope: Scope)
      : map<PubKey, Publication>
  {
    AddedPubs(if moves then map k | k in pubs :: if k.entity == e then pubs[k].(scope := scope) else pubs[k] else pubs,
              ids, e, scope)
  }

  ghost function ContribsOp(contribs: map<ContribKey, Scope>, moves: bool, e: int, pairs: set<Pair>, scope: Scope)
      : map<ContribKey, Scope>
  {
    Logged(if moves then map c | c in contribs && c.entity != e :: contribs[c] else contribs, e, pairs, scope)
  }

  function DirtyOp(dirty: map<Scope, Reason>, left: set<Scope>, scope: Scope): map<Scope, Reason> {
    (dirty + map s | s in left :: Reassign)[scope := Enrichment]
  }

  lemma AfterByTables(t: Tables, w: Request)
    requires Takes(t, w)
    ensures After(t, w) == Tables(
      PubsOp(t.pubs, Reassigns(t, w), Retained(w), w.entity, ScopeOf(w)),
      ContribsOp(t.contribs, Reassigns(t, w), w.entity, PairsOf(AuthorsOf(w)), ScopeOf(w)),
      Credited(t.edges, Novel(KeptContribs(t, w), w.entity, PairsOf(AuthorsOf(w))), ScopeOf(w)),
      DirtyOp(t.dirty, Left(t, w), ScopeOf(w)))
  {
    var none: set<Scope> := {};
    assert t.dirty + (map s | s in none :: Reassign) == t.dirty;
  }

  lemma PubsOpAt(pubs: map<PubKey, Publication>, moves: bool, ids: seq<int>, e: int, scope: Scope, k: PubKey)
    ensures k in PubsOp(pubs, moves, ids, e, scope) <==> k in pubs || (k.entity == e && k.author in ids)
    ensures k.entity != e && k in pubs ==> PubsOp(pubs, moves, ids, e, scope)[k] == pubs[k]
  {}

  lemma PubsOpLocal(p: map<PubKey, Publication>, q: map<PubKey, Publication>, moves: bool, ids: seq<int>, e: int,
                    scope: Scope, k: PubKey)
    requires k.entity == e && (k in p <==> k in q) && (k in p ==> p[k] == q[k])
    ensures k in PubsOp(p, moves, ids, e, scope) ==>
      k in PubsOp(q, moves, ids, e, scope) && PubsOp(p, moves, ids, e, scope)[k] == PubsOp(q, moves, ids, e, scope)[k]
  {}

  lemma PubsCommute(pubs: map<PubKey, Publication>, m1: bool, ids1: seq<int>, e1: int, s1: Scope,
                    m2: bool, ids2: seq<int>, e2: int, s2: Scope)
    requires e1 != e2
    ensures PubsOp(PubsOp(pubs, m1, ids1, e1, s1), m2, ids2, e2, s2)
            == PubsOp(PubsOp(pubs, m2, ids2, e2, s2), m1, ids1, e1, s1)
  {
    var p1, p2 := PubsOp(pubs, m1, ids1, e1, s1), PubsOp(pubs, m2, ids2, e2, s2);
    var a, b := PubsOp(p1, m2, ids2, e2, s2), PubsOp(p2, m1, ids1, e1, s1);
    hide PubsOp;
    forall k ensures (k in a <==> k in b) && (k in a && k in b ==> a[k] == b[k]) {
      PubsOpAt(pubs, m1, ids1, e1, s1, k);
      PubsOpAt(pubs, m2, ids2, e2, s2, k);
      PubsOpAt(p1, m2, ids2, e2, s2, k);
      PubsOpAt(p2, m1, ids1, e1, s1, k);
      if k.entity == e1 {
        PubsOpLocal(pubs, p2, m1, ids1, e1, s1, k);
      } else if k.entity == e2 {
        PubsOpLocal(p1, pubs, m2, ids2, e2, s2, k);
      }
    }
    assert a == b;
  }

  lemma ContribsOpAt(contribs: map<ContribKey, Scope>, moves: bool, e: int, pairs: set<Pair>, scope: Scope, c: ContribKey)
    ensures var after := ContribsOp(contribs, moves, e, pairs, scope);
            if c.entity != e then (c in after <==> c in contribs) && (c in after ==> after[c] == contribs[c])
            else (c in after <==> (c in contribs && !moves) || Pair(c.a, c.b) in pairs)
                 && (c in after ==> after[c] == if c in contribs && !moves then contribs[c] else scope)
  {
    assert c.entity == e ==> c == ContribKey(e, Pair(c.a, c.b).a, Pair(c.a, c.b).b);
  }

  lemma ContribsCommute(contribs: map<ContribKey, Scope>, m1: bool, e1: int, ps1: set<Pair>, s1: Scope,
                        m2: bool, e2: int, ps2: set<Pair>, s2: Scope)
    requires e1 != e2
    ensures ContribsOp(ContribsOp(contribs, m1, e1, ps1, s1), m2, e2, ps2, s2)
            == ContribsOp(ContribsOp(contribs, m2, e2, ps2, s2), m1, e1, ps1, s1)
  {
    var c1, c2 := ContribsOp(contribs, m1, e1, ps1, s1), ContribsOp(contribs, m2, e2, ps2, s2);
    var a, b := ContribsOp(c1, m2, e2, ps2, s2), ContribsOp(c2, m1, e1, ps1, s1);
    hide ContribsOp;
    forall c ensures (c in a <==> c in b) && (c in a && c in b ==> a[c] == b[c]) {
      ContribsOpAt(contribs, m1, e1, ps1, s1, c);
      ContribsOpAt(contribs, m2, e2, ps2, s2, c);
      ContribsOpAt(c1, m2, e2, ps2, s2, c);
      ContribsOpAt(c2, m1, e1, ps1, s1, c);
    }
    assert a == b;
  }

  lemma DirtyCommute(dirty: map<Scope, Reason>, l1: set<Scope>, s1: Scope, l2: set<Scope>, s2: Scope)
    requires s1 !in l1 && s2 !in l2
    ensures var a, b := DirtyOp(DirtyOp(dirty, l1, s1), l2, s2), DirtyOp(DirtyOp(dirty, l2, s2), l1, s1);
            a.Keys == b.Keys && (a == b <==> s2 !in l1 && s1 !in l2)
  {
    var a, b := DirtyOp(DirtyOp(dirty, l1, s1), l2, s2), DirtyOp(DirtyOp(dirty, l2, s2), l1, s1);
    if s2 in l1 {
      assert a[s2] == Enrichment && b[s2] == Reassign;
    } else if s1 in l2 {
      assert a[s1] == Reassign && b[s1] == Enrichment;
    } else {
      forall s | s in a ensures a[s] == b[s] {}
    }
  }

  /** Writes for different entities give the same rows and the same dirty scopes in either order. */
  lemma WritesCommute(t: Tables, w: Request, v: Request)
    requires w.entity != v.entity
    ensures SameRows(After(After(t, w), v), After(After(t, v), w))
  {
    SameDecisions(t, w, v);
    SameDecisions(t, v, w);
    if Takes(t, w) && Takes(t, v) {
      TakenWritesCommute(t, w, v);
    } else {
      TakesOrNot(t, w);
      TakesOrNot(t, v);
      TakesOrNot(After(t, w), v);
      TakesOrNot(After(t, v), w);
    }
  }

  lemma TakesOrNot(t: Tables, w: Request)
    ensures !Takes(t, w) ==> After(t, w) == t
  {}

  lemma TakenWritesCommute(t: Tables, w: Request, v: Request)
    requires w.entity != v.entity && Takes(t, w) && Takes(t, v)
    ensures SameRows(After(After(t, w), v), After(After(t, v), w))
    ensures After(After(t, w), v).dirty == After(After(t, v), w).dirty
            <==> ScopeOf(v) !in Left(t, w) && ScopeOf(w) !in Left(t, v)
  {
    SameDecisions(t, w, v);
    SameDecisions(t, v, w);
    AfterByTables(t, w);
    AfterByTables(t, v);
    AfterByTables(After(t, w), v);
    AfterByTables(After(t, v), w);
    hide After, PubsOp, ContribsOp, Credited, Novel, PairsOf, AuthorsOf, KeptContribs, PriorScopes, Takes, DirtyOp;
    PubsCommute(t.pubs, Reassigns(t, w), Retained(w), w.entity, ScopeOf(w),
                Reassigns(t, v), Retained(v), v.entity, ScopeOf(v));
    ContribsCommute(t.contribs, Reassigns(t, w), w.entity, PairsOf(AuthorsOf(w)), ScopeOf(w),
                    Reassigns(t, v), v.entity, PairsOf(AuthorsOf(v)), ScopeOf(v));
    CreditsCommute(t.edges, Novel(KeptContribs(t, w), w.entity, PairsOf(AuthorsOf(w))), ScopeOf(w),
                   Novel(KeptContribs(t, v), v.entity, PairsOf(AuthorsOf(v))), ScopeOf(v));
    DirtyCommute(t.dirty, Left(t, w), ScopeOf(w), Left(t, v), ScopeOf(v));
    assert SameRows(After(After(t, w), v), After(After(t, v), w));
    assert After(After(t, w), v).dirty == After(After(t, v), w).dirty
           <==> ScopeOf(v) !in Left(t, w) && ScopeOf(w) !in Left(t, v);
  }

  /** The recorded reason of a dirty scope does depend on the order, exactly when one entity leaves a scope
      that the other is written in. */
  lemma ReasonsCommuteExactly(t: Tables, w: Request, v: Request)
    requires w.entity != v.entity && Takes(t, w) && Takes(t, v)
    ensures After(After(t, w), v) == After(After(t, v), w)
            <==> ScopeOf(v) !in Left(t, w) && ScopeOf(w) !in Left(t, v)
  {
    TakenWritesCommute(t, w, v);
    hide After, Left;
  }

  // ── How much weight a first write adds ──────────────────────────────────

  ghost function Weights(edges: map<EdgeKey, nat>): EdgeKey -> int {
    k => Weight(edges, k)
  }

  ghost function TotalWeight(edges: map<EdgeKey, nat>): int {
    Total(edges.Keys, Weights(edges))
  }

  lemma RaiseOne(edges: map<EdgeKey, nat>, k: EdgeKey)
    ensures TotalWeight(edges[k := Weight(edges, k) + 1]) == TotalWeight(edges) + 1
  {
    var raised := edges[k := Weight(edges, k) + 1];
    TotalRemove(raised.Keys, k, Weights(raised));
    assert raised.Keys - {k} == edges.Keys - {k};
    TotalCong(edges.Keys - {k}, Weights(raised), Weights(edges));
    if k in edges {
      TotalRemove(edges.Keys, k, Weights(edges));
    } else {
      assert edges.Keys - {k} == edges.Keys;
    }
  }

  lemma {:induction false} CreditedTotal(edges: map<EdgeKey, nat>, novel: set<Pair>, scope: Scope)
    ensures TotalWeight(Credited(edges, novel, scope)) == TotalWeight(edges) + |novel|
  {
    hide TotalWeight, Credited;
    if novel == {} {
      NothingCredited(edges, scope);
    } else {
      var p :| p in novel;
      var rest := novel - {p};
      CreditedTotal(edges, rest, scope);
      CreditOne(edges, rest, p, scope);
      RaiseOne(Credited(edges, rest, scope), EdgeKey(p.a, p.b, scope));
      assert rest + {p} == novel;
    }
    assert TotalWeight(Credited(edges, novel, scope)) == TotalWeight(edges) + |novel|;
  }

  lemma NothingCredited(edges: map<EdgeKey, nat>, scope: Scope)
    ensures Credited(edges, {}, scope) == edges
  {}

  /** The pairs that `x` forms with the members of `s`. */
  function PairsWith(x: int, s: set<int>): set<Pair> {
    set y | y in s :: Ordered(x, y)
  }

  lemma {:induction false} PairsWithCount(x: int, s: set<int>)
    requires x !in s
    ensures |PairsWith(x, s)| == |s|
  {
    SomeMember(s);
    if s != {} {
      var y :| y in s;
      PairsWithCount(x, s - {y});
      assert PairsWith(x, s) == PairsWith(x, s - {y}) + {Ordered(x, y)};
      assert Ordered(x, y) !in PairsWith(x, s - {y});
    }
  }

  lemma {:induction false} PairsCount(s: set<int>)
    ensures 2 * |PairsOf(s)| == |s| * (|s| - 1)
  {
    SomeMember(s);
    if s == {} {
      assert PairsOf(s) == {};
    } else {
      var x :| x in s;
      var rest := s - {x};
      PairsCount(rest);
      PairsWithCount(x, rest);
      PairsSplit(s, x);
      var n := |rest|;
      assert |s| == n + 1 && (n + 1) * n == n * (n - 1) + 2 * n;
    }
  }

  lemma PairsSplit(s: set<int>, x: int)
    requires x in s
    ensures |PairsOf(s)| == |PairsOf(s - {x})| + |PairsWith(x, s - {x})|
  {
    var rest := s - {x};
    forall p | p in PairsOf(s) ensures p in PairsOf(rest) || p in PairsWith(x, rest) {
      if p.a == x {
        assert p == Ordered(x, p.b) && p.b in rest;
      } else if p.b == x {
        assert p == Ordered(x, p.a) && p.a in rest;
      }
    }
    forall p | p in PairsWith(x, rest) ensures p in PairsOf(s) && p !in PairsOf(rest) {}
    assert PairsOf(s) == PairsOf(rest) + PairsWith(x, rest);
  }

  lemma {:induction false} DistinctCount(ids: seq<int>)
    requires forall i, j :: 0 <= i < j < |ids| ==> ids[i] != ids[j]
    ensures |set x | x in ids| == |ids|
  {
    if ids != [] {
      var before, last := ids[..|ids| - 1], ids[|ids| - 1];
      DistinctCount(before);
      assert ids == before + [last];
      assert (set x | x in ids) == (set x | x in before) + {last};
    }
  }

  lemma FirstWriteIsNovel(t: Tables, w: Request)
    requires Takes(t, w) && PriorScopes(t, w.entity) == {} && Contributed(t.pubs, t.contribs)
    ensures After(t, w).edges == Credited(t.edges, PairsOf(AuthorsOf(w)), ScopeOf(w))
    ensures |AuthorsOf(w)| == |Retained(w)|
  {
    var ids, pairs := Retained(w), PairsOf(AuthorsOf(w));
    assert forall k :: k in t.pubs && k.entity == w.entity ==> t.pubs[k].scope in PriorScopes(t, w.entity);
    forall p | p in pairs ensures ContribKey(w.entity, p.a, p.b) !in t.contribs {}
    assert Novel(t.contribs, w.entity, pairs) == pairs;
    forall i, j | 0 <= i < j < |ids| ensures ids[i] != ids[j] {
      assert PubKey(ids[i], w.entity) !in t.pubs;
    }
    DistinctCount(ids);
  }

  /** The first write of an entity with k retained authors adds exactly k(k-1)/2 to the total edge weight. */
  lemma FirstWriteWeight(changes: seq<Change>, w: Request)
    requires Takes(Run(changes).tables, w) && PriorScopes(Run(changes).tables, w.entity) == {}
    ensures var t, k := Run(changes).tables, |Retained(w)|;
            2 * (TotalWeight(After(t, w).edges) - TotalWeight(t.edges)) == k * (k - 1)
  {
    RunSound(changes);
    var t := Run(changes).tables;
    FirstWriteIsNovel(t, w);
    hide Run, Credited, TotalWeight, PairsOf, AuthorsOf, After, Takes;
    CreditedTotal(t.edges, PairsOf(AuthorsOf(w)), ScopeOf(w));
    PairsCount(AuthorsOf(w));
    var k := |Retained(w)|;
    assert 2 * (TotalWeight(After(t, w).edges) - TotalWeight(t.edges)) == k * (k - 1);
  }
}
