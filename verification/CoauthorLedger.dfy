/** `write_coauthor_artifacts` (backend/enrichment_worker.py:407-511): publications, an idempotency log of
    contributions, edge weights and dirty scopes, written as one unit per entity. */
module CoauthorLedger {
  import opened Wrappers

  datatype Scope = Scope(org: int, domain: string)

  datatype PubKey = PubKey(author: int, entity: int)

  datatype Publication = Publication(scope: Scope, position: nat)

  datatype ContribKey = ContribKey(entity: int, a: int, b: int)

  datatype EdgeKey = EdgeKey(a: int, b: int, scope: Scope)

  datatype Pair = Pair(a: int, b: int)

  datatype Reason = Reassign | Enrichment

  datatype Tables = Tables(
    pubs: map<PubKey, Publication>,
    contribs: map<ContribKey, Scope>,
    edges: map<EdgeKey, nat>,
    dirty: map<Scope, Reason>)

  /** One call: the entity row, and the author ids its author names resolve to, in order. */
  datatype Request = Request(entity: int, org: Option<int>, domain: Option<string>, authors: seq<int>)

  const MAX_AUTHORS: nat := 15

  function ScopeOf(w: Request): Scope {
    Scope(if w.org.None? then 0 else w.org.value,
          if w.domain.None? || w.domain.value == "" then "default" else w.domain.value)
  }

  function Retained(w: Request): seq<int> {
    if |w.authors| <= MAX_AUTHORS then w.authors else w.authors[..MAX_AUTHORS]
  }

  function AuthorsOf(w: Request): set<int> {
    set x | x in Retained(w)
  }

  // ── The write as a function ─────────────────────────────────────────────

  function PriorScopes(t: Tables, e: int): set<Scope> {
    set k | k in t.pubs && k.entity == e :: t.pubs[k].scope
  }

  predicate Reassigns(t: Tables, w: Request) {
    PriorScopes(t, w.entity) != {} && ScopeOf(w) !in PriorScopes(t, w.entity)
  }

  /** The new rows are keyed by (author, entity): an author listed twice, and not recorded yet, violates the key. */
  ghost predicate Aborts(t: Tables, w: Request) {
    exists i, j :: 0 <= i < j < |Retained(w)| && Retained(w)[i] == Retained(w)[j]
                   && PubKey(Retained(w)[i], w.entity) !in t.pubs
  }

  function MovedPubs(t: Tables, w: Request): map<PubKey, Publication> {
    if Reassigns(t, w)
    then map k | k in t.pubs :: if k.entity == w.entity then t.pubs[k].(scope := ScopeOf(w)) else t.pubs[k]
    else t.pubs
  }

  function KeptContribs(t: Tables, w: Request): map<ContribKey, Scope> {
    if Reassigns(t, w) then map c | c in t.contribs && c.entity != w.entity :: t.contribs[c] else t.contribs
  }

  /** Author `x` first appears at this 1-based position. */
  ghost function PositionOf(ids: seq<int>, x: int): nat
    requires x in ids
  {
    if ids[0] == x then 1 else 1 + PositionOf(ids[1..], x)
  }

  ghost function AddedPubs(pubs: map<PubKey, Publication>, ids: seq<int>, e: int, scope: Scope): map<PubKey, Publication> {
    map k | k in pubs.Keys + (set x | x in ids :: PubKey(x, e)) ::
      if k in pubs then pubs[k] else Publication(scope, PositionOf(ids, k.author))
  }

  /** The unordered pairs of distinct authors. */
  function PairsOf(s: set<int>): set<Pair> {
    set a, b | a in s && b in s && a < b :: Pair(a, b)
  }

  /** The pairs of `ps` not yet in the idempotency log for entity `e`. */
  function Novel(contribs: map<ContribKey, Scope>, e: int, ps: set<Pair>): set<Pair> {
    set p | p in ps && ContribKey(e, p.a, p.b) !in contribs
  }

  ghost function Logged(contribs: map<ContribKey, Scope>, e: int, ps: set<Pair>, scope: Scope): map<ContribKey, Scope> {
    map c | c in contribs.Keys + (set p | p in ps :: ContribKey(e, p.a, p.b)) ::
      if c in contribs then contribs[c] else scope
  }

  function Weight(edges: map<EdgeKey, nat>, k: EdgeKey): nat {
    if k in edges then edges[k] else 0
  }

  /** Each novel pair adds one to its edge in `scope`. */
  ghost function Credited(edges: map<EdgeKey, nat>, novel: set<Pair>, scope: Scope): map<EdgeKey, nat> {
    map k | k in edges.Keys + (set p | p in novel :: EdgeKey(p.a, p.b, scope)) ::
      Weight(edges, k) + (if k.scope == scope && Pair(k.a, k.b) in novel then 1 else 0)
  }

  function Marked(t: Tables, w: Request): map<Scope, Reason> {
    (if Reassigns(t, w) then t.dirty + (map s | s in PriorScopes(t, w.entity) :: Reassign) else t.dirty)
      [ScopeOf(w) := Enrichment]
  }

  /** The tables after a write that goes through. */
  ghost function Written(t: Tables, w: Request): Tables {
    if |w.authors| < 2 then t
    else
      var kept := KeptContribs(t, w);
      var pairs := PairsOf(AuthorsOf(w));
      Tables(AddedPubs(MovedPubs(t, w), Retained(w), w.entity, ScopeOf(w)),
             Logged(kept, w.entity, pairs, ScopeOf(w)),
             Credited(t.edges, Novel(kept, w.entity, pairs), ScopeOf(w)),
             Marked(t, w))
  }

  /** What the caller sees: a key violation undoes the whole unit. */
  ghost function After(t: Tables, w: Request): Tables {
    if |w.authors| >= 2 && Aborts(t, w) then t else Written(t, w)
  }

  // ── The write as the code does it ───────────────────────────────────────

  class Session {
    var tables: Tables

    constructor (tables: Tables)
      ensures this.tables == tables
    {
      this.tables := tables;
    }

    /** `enabled` is `force or COAUTHOR_V2_WRITE`; false as result is the IntegrityError the caller rolls back. */
    method Write(w: Request, enabled: bool) returns (ok: bool)
      modifies this
      ensures !enabled ==> ok && tables == old(tables)
      ensures !ok || |w.authors| < 2 ==> tables == old(tables)
      ensures enabled ==> (ok <==> |w.authors| < 2 || !Aborts(old(tables), w)) && tables == After(old(tables), w)
    {
      if !enabled || |w.authors| < 2 {
        return true;
      }
      var scope, ids := ScopeOf(w), Retained(w);
      var t := tables;
      var prior := PriorScopes(t, w.entity);
      var pubs, contribs, dirty := t.pubs, t.contribs, t.dirty;
      if prior != {} && scope !in prior {
        dirty := dirty + (map s | s in prior :: Reassign);
        pubs := MovedPubs(t, w);
        contribs := KeptContribs(t, w);
      }
      ok, pubs := UpsertPublications(t, w, pubs);
      if !ok {
        return;
      }
      var edges;
      contribs, edges := LogPairs(w, contribs, t.edges);
      tables := Tables(pubs, contribs, edges, dirty[scope := Enrichment]);
    }
  }

  method UpsertPublications(ghost t: Tables, w: Request, pubs0: map<PubKey, Publication>)
      returns (ok: bool, pubs: map<PubKey, Publication>)
    requires pubs0.Keys == t.pubs.Keys
    ensures ok <==> !Aborts(t, w)
    ensures ok ==> pubs == AddedPubs(pubs0, Retained(w), w.entity, ScopeOf(w))
  {
    hide AddedPubs;
    var ids, scope := Retained(w), ScopeOf(w);
    pubs := pubs0;
    NothingAdded(pubs0, ids, w.entity, scope);
    for i := 0 to |ids|
      invariant pubs == AddedPubs(pubs0, ids[..i], w.entity, scope)
      invariant forall j, k :: 0 <= j < k < i && ids[j] == ids[k] ==> PubKey(ids[j], w.entity) in pubs0
    {
      var key := PubKey(ids[i], w.entity);
      AddStep(pubs0, ids, i, w.entity, scope);
      if key !in pubs0 {
        if key in pubs {
          ghost var j :| 0 <= j < i && ids[..i][j] == ids[i];
          assert PubKey(Retained(w)[j], w.entity) !in t.pubs;
          return false, pubs0;
        }
        pubs := pubs[key := Publication(scope, i + 1)];
      }
      assert forall j :: 0 <= j < i && ids[j] == ids[i] ==> ids[..i][j] == ids[i];
    }
    assert ids[..|ids|] == ids;
    ok := true;
  }

  lemma NothingAdded(pubs: map<PubKey, Publication>, ids: seq<int>, e: int, scope: Scope)
    ensures AddedPubs(pubs, ids[..0], e, scope) == pubs
  {}

  lemma AddStep(pubs: map<PubKey, Publication>, ids: seq<int>, i: nat, e: int, scope: Scope)
    requires i < |ids|
    ensures var key, now, next := PubKey(ids[i], e), AddedPubs(pubs, ids[..i], e, scope), AddedPubs(pubs, ids[..i + 1], e, scope);
            && (key in now <==> key in pubs || ids[i] in ids[..i])
            && (key in now ==> next == now)
            && (key !in now ==> next == now[key := Publication(scope, i + 1)])
  {
    var key, now, next := PubKey(ids[i], e), AddedPubs(pubs, ids[..i], e, scope), AddedPubs(pubs, ids[..i + 1], e, scope);
    assert ids[..i + 1] == ids[..i] + [ids[i]];
    assert ids[i] in ids[..i] ==> key in set x | x in ids[..i] :: PubKey(x, e);
    assert next.Keys == now.Keys + {key};
    if key !in now {
      FirstPosition(ids[..i + 1], i);
    }
    forall k | k in now ensures next[k] == now[k] {
      if k !in pubs {
        PositionStable(ids[..i], ids[i], k.author);
      }
    }
    hide AddedPubs, PositionOf;
    assert key in now ==> next == now;
    assert key !in now ==> next == now[key := Publication(scope, i + 1)];
  }

  lemma {:induction false} PositionStable(ids: seq<int>, last: int, x: int)
    requires x in ids
    ensures PositionOf(ids + [last], x) == PositionOf(ids, x)
  {
    assert (ids + [last])[0] == ids[0];
    if ids[0] != x {
      assert x in ids[1..];
      assert (ids + [last])[1..] == ids[1..] + [last];
      PositionStable(ids[1..], last, x);
    }
  }

  lemma {:induction false} FirstPosition(ids: seq<int>, i: nat)
    requires i < |ids| && ids[i] !in ids[..i]
    ensures PositionOf(ids, ids[i]) == i + 1
  {
    if i > 0 {
      assert ids[0] in ids[..i];
      assert ids[1..][..i - 1] == ids[1..i];
      assert forall x :: x in ids[1..i] ==> x in ids[..i];
      FirstPosition(ids[1..], i - 1);
    }
  }

  // ── The loop over combinations(author_ids, 2) ───────────────────────────

  function Ordered(x: int, y: int): Pair {
    if x < y then Pair(x, y) else Pair(y, x)
  }

  /** The pairs met before the loop reaches positions (i, j). */
  ghost function PairsBefore(ids: seq<int>, i: nat, j: nat): set<Pair> {
    set x, y | 0 <= x < y < |ids| && (x < i || (x == i && y < j)) && ids[x] != ids[y] :: Ordered(ids[x], ids[y])
  }

  lemma PairsBeforeNext(ids: seq<int>, i: nat, j: nat)
    requires i < j < |ids|
    ensures PairsBefore(ids, i, j + 1)
            == PairsBefore(ids, i, j) + (if ids[i] == ids[j] then {} else {Ordered(ids[i], ids[j])})
  {
    var next, now := PairsBefore(ids, i, j + 1), PairsBefore(ids, i, j);
    forall p | p in next ensures p in now || (ids[i] != ids[j] && p == Ordered(ids[i], ids[j])) {
      var x, y :| 0 <= x < y < |ids| && (x < i || (x == i && y < j + 1)) && ids[x] != ids[y] && p == Ordered(ids[x], ids[y]);
    }
  }

  lemma PairsBeforeRow(ids: seq<int>, i: nat)
    requires i < |ids|
    ensures PairsBefore(ids, i, |ids|) == PairsBefore(ids, i + 1, i + 2)
    ensures PairsBefore(ids, 0, 1) == {}
  {}

  lemma PairsBeforeAll(ids: seq<int>, j: nat)
    ensures PairsBefore(ids, |ids|, j) == PairsOf(set x | x in ids)
  {
    var s := set x | x in ids;
    forall p | p in PairsOf(s) ensures p in PairsBefore(ids, |ids|, j) {
      var x :| 0 <= x < |ids| && ids[x] == p.a;
      var y :| 0 <= y < |ids| && ids[y] == p.b;
      if x < y {
        assert p == Ordered(ids[x], ids[y]);
      } else {
        assert p == Ordered(ids[y], ids[x]);
      }
    }
    forall p | p in PairsBefore(ids, |ids|, j) ensures p in PairsOf(s) {}
  }

  lemma LogStep(contribs: map<ContribKey, Scope>, edges: map<EdgeKey, nat>, e: int, done: set<Pair>, p: Pair, scope: Scope)
    ensures var c, g := Logged(contribs, e, done, scope), Credited(edges, Novel(contribs, e, done), scope);
            var key, edge := ContribKey(e, p.a, p.b), EdgeKey(p.a, p.b, scope);
            if key in c
            then Logged(contribs, e, done + {p}, scope) == c
                 && Novel(contribs, e, done + {p}) == Novel(contribs, e, done)
            else Logged(contribs, e, done + {p}, scope) == c[key := scope]
                 && Credited(edges, Novel(contribs, e, done + {p}), scope) == g[edge := Weight(g, edge) + 1]
  {
    var key := ContribKey(e, p.a, p.b);
    var c := Logged(contribs, e, done, scope);
    assert key in c <==> key in contribs || p in done;
    if key in c {
      LoggedTwice(contribs, e, done, p, scope);
    } else {
      CreditOne(edges, Novel(contribs, e, done), p, scope);
      assert Novel(contribs, e, done + {p}) == Novel(contribs, e, done) + {p};
    }
  }

  lemma LoggedTwice(contribs: map<ContribKey, Scope>, e: int, done: set<Pair>, p: Pair, scope: Scope)
    requires ContribKey(e, p.a, p.b) in contribs || p in done
    ensures Logged(contribs, e, done + {p}, scope) == Logged(contribs, e, done, scope)
    ensures Novel(contribs, e, done + {p}) == Novel(contribs, e, done)
  {}

  lemma CreditOne(edges: map<EdgeKey, nat>, novel: set<Pair>, p: Pair, scope: Scope)
    requires p !in novel
    ensures var g, edge := Credited(edges, novel, scope), EdgeKey(p.a, p.b, scope);
            Credited(edges, novel + {p}, scope) == g[edge := Weight(g, edge) + 1]
  {
    var g, edge := Credited(edges, novel, scope), EdgeKey(p.a, p.b, scope);
    var g' := Credited(edges, novel + {p}, scope);
    assert Pair(edge.a, edge.b) == p;
    assert g'.Keys == g.Keys + {edge};
    forall k | k in g' ensures g'[k] == g[edge := Weight(g, edge) + 1][k] {}
  }

  /** One contribution per pair; only a new one raises its edge. */
  method LogPairs(w: Request, contribs0: map<ContribKey, Scope>, edges0: map<EdgeKey, nat>)
      returns (contribs: map<ContribKey, Scope>, edges: map<EdgeKey, nat>)
    ensures contribs == Logged(contribs0, w.entity, PairsOf(AuthorsOf(w)), ScopeOf(w))
    ensures edges == Credited(edges0, Novel(contribs0, w.entity, PairsOf(AuthorsOf(w))), ScopeOf(w))
  {
    hide Logged, Credited, Novel, PairsOf, PairsBefore;
    var scope, ids := ScopeOf(w), Retained(w);
    contribs, edges := contribs0, edges0;
    NothingLogged(contribs0, edges0, w.entity, ids, scope);
    for i := 0 to |ids|
      invariant contribs == Logged(contribs0, w.entity, PairsBefore(ids, i, i + 1), scope)
      invariant edges == Credited(edges0, Novel(contribs0, w.entity, PairsBefore(ids, i, i + 1)), scope)
    {
      for j := i + 1 to |ids|
        invariant contribs == Logged(contribs0, w.entity, PairsBefore(ids, i, j), scope)
        invariant edges == Credited(edges0, Novel(contribs0, w.entity, PairsBefore(ids, i, j)), scope)
      {
        PairsBeforeNext(ids, i, j);
        if ids[i] != ids[j] {
          var p := Ordered(ids[i], ids[j]);
          LogStep(contribs0, edges0, w.entity, PairsBefore(ids, i, j), p, scope);
          var key := ContribKey(w.entity, p.a, p.b);
          if key !in contribs {
            contribs := contribs[key := scope];
            var edge := EdgeKey(p.a, p.b, scope);
            edges := edges[edge := Weight(edges, edge) + 1];
          }
        } else {
          assert PairsBefore(ids, i, j) + {} == PairsBefore(ids, i, j);
        }
      }
      PairsBeforeRow(ids, i);
    }
    PairsBeforeAll(ids, |ids| + 1);
  }

  lemma NothingLogged(contribs: map<ContribKey, Scope>, edges: map<EdgeKey, nat>, e: int, ids: seq<int>, scope: Scope)
    ensures PairsBefore(ids, 0, 1) == {}
    ensures Logged(contribs, e, {}, scope) == contribs
    ensures Credited(edges, Novel(contribs, e, {}), scope) == edges
  {}
}
