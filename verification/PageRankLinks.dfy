/** Along which edges rank travels in `pagerank` (backend/graph_analytics.py:99-112): said over the positions of the edge
    list, for single nodes and for whole sets of nodes. */
module PageRankLinks {
  import opened GraphModel
  import opened PageRank
  import opened RealSums
  import opened Sets

  // ── Positions in the edge list ──────────────────────────────────────────

  /** The edges out of `n`. */
  function Leaving(edges: EdgeList, n: int): set<int> {
    set i | 0 <= i < |edges| && edges[i].source == n
  }

  /** The edges into the nodes of `s`. */
  function Entering(edges: EdgeList, s: set<int>): set<int> {
    set i | 0 <= i < |edges| && edges[i].target in s
  }

  ghost predicate Covers(edges: EdgeList, r: Rank) {
    forall e :: e in edges ==> e.source in r
  }

  /** What the edge at position `i` carries: the rank of its source, divided by the number of edges out of that. */
  function Carried(edges: EdgeList, r: Rank): int -> real
    requires Covers(edges, r)
  {
    i => if 0 <= i < |edges| && |Leaving(edges, edges[i].source)| > 0
         then r[edges[i].source] / |Leaving(edges, edges[i].source)| as real else 0.0
  }

  lemma {:induction false} LeavingCount(edges: EdgeList, n: int)
    ensures |Leaving(edges, n)| == |Successors(edges, n)|
  {
    if edges != [] {
      var before, last := edges[..|edges| - 1], |edges| - 1;
      LeavingCount(before, n);
      if edges[last].source == n {
        assert Leaving(edges, n) == Leaving(before, n) + {last};
      } else {
        assert Leaving(edges, n) == Leaving(before, n);
      }
    }
  }

  /** A sum over positions is the sum over the list. */
  lemma {:induction false} PositionSum(edges: EdgeList, n: int, w: Edge -> real, f: int -> real)
    requires forall i :: 0 <= i < |edges| ==> f(i) == w(edges[i])
    ensures SumSet(Entering(edges, {n}), f) == SumSeq(edges, Filed(Target(), w, n))
  {
    if edges != [] {
      var before, last := edges[..|edges| - 1], |edges| - 1;
      PositionSum(before, n, w, f);
      EnteringNext(edges, n);
      hide Entering;
      if edges[last].target == n {
        SumSetRemove(Entering(edges, {n}), last, f);
      }
    }
  }

  lemma EnteringNext(edges: EdgeList, n: int)
    requires edges != []
    ensures var last := |edges| - 1;
            if edges[last].target == n
            then last in Entering(edges, {n}) && Entering(edges, {n}) - {last} == Entering(edges[..last], {n})
            else Entering(edges, {n}) == Entering(edges[..last], {n})
  {
    var now, was := Entering(edges, {n}), Entering(edges[..|edges| - 1], {n});
    assert forall i :: i in now - {|edges| - 1} <==> i in was;
    if edges[|edges| - 1].target != n {
      assert forall i :: i in now <==> i in was;
    }
  }

  lemma CarriedIsFlow(edges: EdgeList, r: Rank, i: int)
    requires 0 <= i < |edges| && Covers(edges, r)
    ensures Carried(edges, r)(i) == Flow(edges, At(r))(edges[i])
  {
    var n := edges[i].source;
    LeavingCount(edges, n);
    assert edges[i] in edges;
    assert i in Leaving(edges, n);
    hide Successors;
    assert Flow(edges, At(r))(edges[i]) == Share(edges, At(r))(n);
    assert Share(edges, At(r))(n) == Part(r[n], |Leaving(edges, n)|);
  }

  // ── What one step passes on ─────────────────────────────────────────────

  lemma LinkStep(edges: EdgeList, d: real, r: Rank, n: int)
    requires Covers(edges, r) && n in Nodes(edges)
    ensures At(Step(edges, d, r))(n)
            == Part(1.0 - d, |Nodes(edges)|) + Times(d, SumSet(Entering(edges, {n}), Carried(edges, r)))
  {
    hide Part, Times, SumSet, SumSeq, Nodes;
    forall i | 0 <= i < |edges| ensures Carried(edges, r)(i) == Flow(edges, At(r))(edges[i]) {
      CarriedIsFlow(edges, r, i);
    }
    hide Carried, Flow, Entering;
    PositionSum(edges, n, Flow(edges, At(r)), Carried(edges, r));
    StepAt(edges, d, r, n);
  }

  lemma RawForm(d: real, k: nat, x: real)
    requires k > 0
    ensures Part(1.0 - d, k) + Times(d, x) == (1.0 - d) / k as real + d * x
  {}

  /** A node gets the teleport share and, damped, what the edges into it carry. */
  lemma StepOverLinks(edges: EdgeList, d: real, r: Rank, n: int)
    requires Covers(edges, r) && n in Nodes(edges)
    ensures Step(edges, d, r)[n]
            == (1.0 - d) / |Nodes(edges)| as real + d * SumSet(Entering(edges, {n}), Carried(edges, r))
  {
    LinkStep(edges, d, r, n);
    hide *;
    RawForm(d, |Nodes(edges)|, SumSet(Entering(edges, {n}), Carried(edges, r)));
    RankAt(Step(edges, d, r), n);
  }

  lemma RankAt(r: Rank, n: int)
    requires n in r
    ensures At(r)(n) == r[n]
  {}

  lemma NothingEnters(edges: EdgeList, s: set<int>)
    requires forall e :: e in edges ==> e.target !in s
    ensures Entering(edges, s) == {}
  {
    forall i ensures i !in Entering(edges, s) {
      assert 0 <= i < |edges| ==> edges[i] in edges;
    }
    SomeMember(Entering(edges, s));
  }

  /** A node that no edge leads to gets just the teleport share. */
  lemma UnlinkedGetsTeleport(edges: EdgeList, d: real, r: Rank, n: int)
    requires Covers(edges, r) && n in Nodes(edges) && forall e :: e in edges ==> e.target != n
    ensures Step(edges, d, r)[n] == (1.0 - d) / |Nodes(edges)| as real
  {
    NothingEnters(edges, {n});
    StepOverLinks(edges, d, r, n);
    hide Step, Nodes, Carried, Entering;
    assert SumSet(Entering(edges, {n}), Carried(edges, r)) == 0.0;
  }

  /** A node's next rank depends on nothing but the ranks of the nodes that link to it. */
  lemma OnlyLinkingNodesCount(edges: EdgeList, d: real, r: Rank, s: Rank, n: int)
    requires Covers(edges, r) && Covers(edges, s) && n in Nodes(edges)
    requires forall e :: e in edges && e.target == n ==> r[e.source] == s[e.source]
    ensures Step(edges, d, r)[n] == Step(edges, d, s)[n]
  {
    SameInflow(edges, r, s, n);
    LinkStep(edges, d, r, n);
    LinkStep(edges, d, s, n);
    hide *;
    RankAt(Step(edges, d, r), n);
    RankAt(Step(edges, d, s), n);
    assert Step(edges, d, r)[n] == Step(edges, d, s)[n];
  }

  lemma SameInflow(edges: EdgeList, r: Rank, s: Rank, n: int)
    requires Covers(edges, r) && Covers(edges, s)
    requires forall e :: e in edges && e.target == n ==> r[e.source] == s[e.source]
    ensures SumSet(Entering(edges, {n}), Carried(edges, r)) == SumSet(Entering(edges, {n}), Carried(edges, s))
  {
    forall i | i in Entering(edges, {n}) ensures Carried(edges, r)(i) == Carried(edges, s)(i) {
      assert edges[i] in edges;
    }
    SumSetCong(Entering(edges, {n}), Carried(edges, r), Carried(edges, s));
  }

  /** Any set of nodes gets its teleport shares and, damped, what the edges into the set carry: of the rank of each
      source, one part for every edge out of it. */
  lemma {:induction false} StepOfSet(edges: EdgeList, d: real, r: Rank, s: set<int>)
    requires Covers(edges, r) && s <= Nodes(edges)
    ensures SumSet(s, At(Step(edges, d, r))) - Times(|s| as real, Part(1.0 - d, |Nodes(edges)|))
            == Times(d, SumSet(Entering(edges, s), Carried(edges, r)))
  {
    hide *;
    SomeMember(s);
    if s == {} {
      NothingGained(edges, r, s);
      OneMore(0, Part(1.0 - d, |Nodes(edges)|));
      TimesAdds(d, 0.0, 0.0);
    } else {
      var n :| n in s;
      var rest := s - {n};
      StepOfSet(edges, d, r, rest);
      LinkStep(edges, d, r, n);
      SumSetRemove(s, n, At(Step(edges, d, r)));
      InflowSplits(edges, r, s, n);
      OneMore(|rest|, Part(1.0 - d, |Nodes(edges)|));
      TimesAdds(d, SumSet(Entering(edges, rest), Carried(edges, r)), SumSet(Entering(edges, {n}), Carried(edges, r)));
    }
    assert SumSet(s, At(Step(edges, d, r))) - Times(|s| as real, Part(1.0 - d, |Nodes(edges)|))
           == Times(d, SumSet(Entering(edges, s), Carried(edges, r)));
  }

  lemma NothingGained(edges: EdgeList, r: Rank, s: set<int>)
    requires Covers(edges, r) && s == {}
    ensures SumSet(Entering(edges, s), Carried(edges, r)) == 0.0 && forall f: int -> real :: SumSet(s, f) == 0.0
  {
    NothingEnters(edges, s);
  }

  lemma InflowSplits(edges: EdgeList, r: Rank, s: set<int>, n: int)
    requires Covers(edges, r) && n in s
    ensures SumSet(Entering(edges, s), Carried(edges, r))
            == SumSet(Entering(edges, s - {n}), Carried(edges, r)) + SumSet(Entering(edges, {n}), Carried(edges, r))
  {
    EnteringSplits(edges, s, n);
    hide Entering, Carried;
    SumSetJoin(Entering(edges, s - {n}), Entering(edges, {n}), Carried(edges, r));
  }

  lemma EnteringSplits(edges: EdgeList, s: set<int>, n: int)
    requires n in s
    ensures Entering(edges, s) == Entering(edges, s - {n}) + Entering(edges, {n})
    ensures Entering(edges, s - {n}) !! Entering(edges, {n})
  {
    var all, rest, mine := Entering(edges, s), Entering(edges, s - {n}), Entering(edges, {n});
    assert forall i :: i in all <==> i in rest || i in mine;
    assert forall i :: !(i in rest && i in mine);
    assert all == rest + mine;
  }

  lemma {:induction false} SumSetJoin(a: set<int>, b: set<int>, f: int -> real)
    requires a !! b
    ensures SumSet(a + b, f) == SumSet(a, f) + SumSet(b, f)
    decreases b
  {
    SomeMember(b);
    if b == {} {
      assert a + b == a;
    } else {
      var x :| x in b;
      SumSetRemove(b, x, f);
      SumSetRemove(a + b, x, f);
      assert a + b - {x} == a + (b - {x});
      SumSetJoin(a, b - {x}, f);
    }
  }

  // ── What the loop starts from, measures and returns ─────────────────────

  /** The nodes start with equal parts of 1. */
  lemma StartIsEven(edges: EdgeList, d: real, n: int)
    requires n in Nodes(edges)
    ensures Ranks(edges, d, 0)[n] == 1.0 / |Nodes(edges)| as real
  {
    SomeMember(Nodes(edges));
  }

  /** The difference adds up, node by node, how far the two ranks are apart. */
  lemma DistanceOverNodes(edges: EdgeList, r: Rank, s: Rank, apart: int -> real)
    requires r.Keys == Nodes(edges) && s.Keys == Nodes(edges)
    requires forall n :: n in Nodes(edges) ==> apart(n) == if r[n] < s[n] then s[n] - r[n] else r[n] - s[n]
    ensures Distance(edges, r, s) == SumSet(Nodes(edges), apart)
  {
    forall n | n in Nodes(edges) ensures Gap(r, s)(n) == apart(n) {
      assert n in r.Keys && n in s.Keys;
      assert At(r)(n) == r[n] && At(s)(n) == s[n];
    }
    hide Gap, Nodes;
    SumSetCong(Nodes(edges), Gap(r, s), apart);
  }

  /** The scores are the ranks over their total. */
  lemma ScoresOverTotal(edges: EdgeList, r: Rank, scores: Rank, rank: int -> real, n: int)
    requires r.Keys == Nodes(edges) && n in Nodes(edges)
    requires forall m :: m in Nodes(edges) ==> rank(m) == r[m]
    requires Normalised(edges, r, scores) && SumSet(Nodes(edges), rank) != 0.0
    ensures n in scores && scores[n] == r[n] / SumSet(Nodes(edges), rank)
  {
    forall m | m in Nodes(edges) ensures At(r)(m) == rank(m) {}
    hide At, Nodes;
    SumSetCong(Nodes(edges), At(r), rank);
    RankAt(r, n);
  }
}
