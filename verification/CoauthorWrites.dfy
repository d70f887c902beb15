/** What one call of `write_coauthor_artifacts` (backend/enrichment_worker.py:407-511) does to each table, row by row and
    in the terms of its request. */
module CoauthorWrites {
  import opened CoauthorLaws
  import opened CoauthorLedger
  import opened Wrappers

  /** The scope of a request: no organisation is 0, a missing or empty domain is the default one. */
  ghost predicate InScope(w: Request, scope: Scope) {
    && scope.org == (match w.org case None => 0 case Some(org) => org)
    && scope.domain == (if w.domain == None || w.domain == Some("") then "default" else w.domain.value)
  }

  /** The authors that count: the first fifteen. */
  ghost predicate Counts(w: Request, x: int) {
    exists i :: 0 <= i < |w.authors| && i < 15 && w.authors[i] == x
  }

  lemma CountsExactly(w: Request, x: int)
    ensures Counts(w, x) <==> x in AuthorsOf(w)
    ensures Counts(w, x) <==> x in Retained(w)
  {
    if x in Retained(w) {
      var i :| 0 <= i < |Retained(w)| && Retained(w)[i] == x;
      assert w.authors[i] == x;
    }
    if i :| 0 <= i < |w.authors| && i < 15 && w.authors[i] == x {
      assert Retained(w)[i] == x;
    }
  }

  /** The entity was published in another scope. */
  ghost predicate Moves(t: Tables, w: Request) {
    exists k :: k in t.pubs && k.entity == w.entity && !InScope(w, t.pubs[k].scope)
  }

  lemma MovesExactly(t: Tables, w: Request)
    requires OneScope(t.pubs)
    ensures Moves(t, w) <==> Reassigns(t, w)
    ensures InScope(w, ScopeOf(w)) && forall scope :: InScope(w, scope) ==> scope == ScopeOf(w)
  {
    if k :| k in t.pubs && k.entity == w.entity && !InScope(w, t.pubs[k].scope) {
      assert t.pubs[k].scope in PriorScopes(t, w.entity);
    }
    if Reassigns(t, w) {
      var s :| s in PriorScopes(t, w.entity);
      var k :| k in t.pubs && k.entity == w.entity && t.pubs[k].scope == s;
      assert s != ScopeOf(w);
    }
  }

  /** Publications: the entity gains exactly the authors that count, all its publications are in the request's scope, and
      those it had keep their positions. */
  lemma PublicationsWritten(t: Tables, w: Request, scope: Scope)
    requires OneScope(t.pubs) && Takes(t, w) && InScope(w, scope)
    ensures var pubs := After(t, w).pubs;
            && (forall x :: PubKey(x, w.entity) in pubs <==> PubKey(x, w.entity) in t.pubs || Counts(w, x))
            && (forall k :: k in pubs && k.entity == w.entity ==> pubs[k].scope == scope)
            && (forall k :: k in t.pubs ==> k in pubs && pubs[k].position == t.pubs[k].position)
            && (forall k: PubKey :: k.entity != w.entity ==>
                  (k in pubs <==> k in t.pubs) && (k in pubs ==> pubs[k] == t.pubs[k]))
  {
    MovesExactly(t, w);
    ScopesKept(t, w);
    forall x ensures PubKey(x, w.entity) in After(t, w).pubs <==> PubKey(x, w.entity) in t.pubs || Counts(w, x) {
      CountsExactly(w, x);
    }
  }

  /** A new publication carries the 1-based position at which its author is first listed. */
  lemma PositionsWritten(t: Tables, w: Request, i: nat)
    requires Takes(t, w) && i < |w.authors| && i < 15 && PubKey(w.authors[i], w.entity) !in t.pubs
    requires forall j :: 0 <= j < i ==> w.authors[j] != w.authors[i]
    ensures var key := PubKey(w.authors[i], w.entity);
            key in After(t, w).pubs && After(t, w).pubs[key].position == i + 1
  {
    var ids, x := Retained(w), w.authors[i];
    assert ids[i] == x && x in ids;
    PositionIsFirst(ids, i);
  }

  lemma {:induction false} PositionIsFirst(ids: seq<int>, i: nat)
    requires i < |ids| && forall j :: 0 <= j < i ==> ids[j] != ids[i]
    ensures PositionOf(ids, ids[i]) == i + 1
  {
    if i > 0 {
      assert ids[1..][i - 1] == ids[i];
      PositionIsFirst(ids[1..], i - 1);
    }
  }

  /** The pairs of authors that count. */
  ghost predicate PairCounts(w: Request, a: int, b: int) {
    a < b && Counts(w, a) && Counts(w, b)
  }

  /** Contributions: the entity has one for every pair of authors that count, and keeps its earlier ones unless it moves;
      all are in the request's scope, or where they were. */
  lemma ContributionsWritten(t: Tables, w: Request, scope: Scope, a: int, b: int)
    requires OneScope(t.pubs) && Takes(t, w) && InScope(w, scope)
    ensures var c, contribs := ContribKey(w.entity, a, b), After(t, w).contribs;
            && (c in contribs <==> PairCounts(w, a, b) || (c in t.contribs && !Moves(t, w)))
            && (c in contribs ==> contribs[c] == if c in t.contribs && !Moves(t, w) then t.contribs[c] else scope)
  {
    MovesExactly(t, w);
    CountsExactly(w, a);
    CountsExactly(w, b);
    AfterByTables(t, w);
    ContribsOpAt(t.contribs, Reassigns(t, w), w.entity, PairsOf(AuthorsOf(w)), ScopeOf(w), ContribKey(w.entity, a, b));
  }

  /** Weights: an edge of the scope gains one exactly when its pair counts and the entity had not contributed it, or had
      contributed it elsewhere; every other weight stays. */
  lemma WeightsWritten(t: Tables, w: Request, scope: Scope, a: int, b: int, s: Scope)
    requires OneScope(t.pubs) && Takes(t, w) && InScope(w, scope)
    ensures Weight(After(t, w).edges, EdgeKey(a, b, s))
            == Weight(t.edges, EdgeKey(a, b, s))
               + (if s == scope && PairCounts(w, a, b) && (ContribKey(w.entity, a, b) !in t.contribs || Moves(t, w))
                  then 1 else 0)
  {
    MovesExactly(t, w);
    CountsExactly(w, a);
    CountsExactly(w, b);
    AfterByTables(t, w);
    var kept, pairs := KeptContribs(t, w), PairsOf(AuthorsOf(w));
    CreditedWeight(t.edges, Novel(kept, w.entity, pairs), ScopeOf(w), EdgeKey(a, b, s));
    assert Pair(a, b) in pairs <==> PairCounts(w, a, b);
    assert Pair(a, b) in Novel(kept, w.entity, pairs)
           <==> PairCounts(w, a, b) && (ContribKey(w.entity, a, b) !in t.contribs || Moves(t, w));
  }

  /** Marks: the request's scope for enrichment; if the entity moves, the scope it leaves for reassignment; no other mark
      changes. */
  lemma MarksWritten(t: Tables, w: Request, scope: Scope, s: Scope)
    requires OneScope(t.pubs) && Takes(t, w) && InScope(w, scope)
    ensures var dirty := After(t, w).dirty;
            var left := Moves(t, w) && exists k :: k in t.pubs && k.entity == w.entity && t.pubs[k].scope == s;
            && (s in dirty <==> s == scope || left || s in t.dirty)
            && (s in dirty ==> dirty[s] == if s == scope then Enrichment else if left then Reassign else t.dirty[s])
  {
    MovesExactly(t, w);
    assert After(t, w).dirty == Marked(t, w);
  }

  /** The write fails exactly when an author that counts is listed twice and not yet recorded for the entity. */
  lemma FailsExactly(t: Tables, w: Request)
    ensures Aborts(t, w)
            <==> exists i, j :: 0 <= i < j < |w.authors| && j < 15 && w.authors[i] == w.authors[j]
                                && PubKey(w.authors[i], w.entity) !in t.pubs
  {
    var ids := Retained(w);
    assert forall i :: 0 <= i < |ids| ==> ids[i] == w.authors[i];
  }
}
