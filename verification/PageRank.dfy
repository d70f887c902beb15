/** `pagerank` (backend/graph_analytics.py:74-118) over exact reals: the power iteration itself, the
    mass it carries, the contraction that makes it converge, and why the default tolerance always stops it. */
module PageRank {
  import opened GraphModel
  import opened RealSums
  import opened Sets

  type Rank = map<int, real>

  // ── The iteration as functions ──────────────────────────────────────────

  function At(r: Rank): int -> real {
    n => if n in r then r[n] else 0.0
  }

  function OutDegree(edges: EdgeList, n: int): nat {
    |Successors(edges, n)|
  }

  /** What one outgoing edge of `n` carries of the rank of `n`; nothing leaves a dangling node. */
  function Share(edges: EdgeList, r: int -> real): int -> real {
    n => Part(r(n), OutDegree(edges, n))
  }

  function Source(): Edge -> int { (e: Edge) => e.source }

  function Target(): Edge -> int { (e: Edge) => e.target }

  /** The share that edge `e` carries. */
  function Flow(edges: EdgeList, r: int -> real): Edge -> real {
    (e: Edge) => Share(edges, r)(e.source)
  }

  /** What reaches each node over its incoming edges. */
  ghost function Received(edges: EdgeList, r: int -> real): int -> real {
    FiledSum(edges, Target(), Flow(edges, r))
  }

  function Teleport(edges: EdgeList, d: real): real {
    Part(1.0 - d, |Nodes(edges)|)
  }

  /** One power step: the teleport share plus the damped shares received over incoming edges. */
  ghost function Step(edges: EdgeList, d: real, r: Rank): (next: Rank)
    ensures next.Keys == Nodes(edges)
  {
    map n | n in Nodes(edges) :: Teleport(edges, d) + Times(d, Received(edges, At(r))(n))
  }

  function Uniform(edges: EdgeList): Rank {
    map n | n in Nodes(edges) :: Part(1.0, |Nodes(edges)|)
  }

  ghost function Ranks(edges: EdgeList, d: real, k: nat): (r: Rank)
    ensures r.Keys == Nodes(edges)
  {
    if k == 0 then Uniform(edges) else Step(edges, d, Ranks(edges, d, k - 1))
  }

  function Gap(r: Rank, s: Rank): int -> real {
    n => Abs(At(r)(n) - At(s)(n))
  }

  /** The L1 distance the loop calls `diff`. */
  ghost function Distance(edges: EdgeList, r: Rank, s: Rank): real {
    SumSet(Nodes(edges), Gap(r, s))
  }

  ghost function Diff(edges: EdgeList, d: real, k: nat): real
    requires k > 0
  {
    Distance(edges, Ranks(edges, d, k), Ranks(edges, d, k - 1))
  }

  ghost function Mass(edges: EdgeList, r: Rank): real {
    SumSet(Nodes(edges), At(r))
  }

  /** The rank of the nodes that have an outgoing edge. */
  function Linked(edges: EdgeList, r: int -> real): int -> real {
    n => if OutDegree(edges, n) > 0 then r(n) else 0.0
  }

  ghost function LinkedMass(edges: EdgeList, r: Rank): real {
    SumSet(Nodes(edges), Linked(edges, At(r)))
  }

  /** `k` is the number of steps the loop takes: every earlier `diff` missed the tolerance, and
      either the last one met it or `max_iter` ran out. */
  ghost predicate StopsAfter(edges: EdgeList, d: real, maxIter: nat, tol: real, k: nat) {
    && k <= maxIter
    && (forall j :: 0 < j < k ==> Diff(edges, d, j) >= tol)
    && (k == maxIter || (k > 0 && Diff(edges, d, k) < tol))
  }

  ghost predicate Normalised(edges: EdgeList, r: Rank, scores: Rank) {
    && scores.Keys == Nodes(edges)
    && var total := if Mass(edges, r) == 0.0 then 1.0 else Mass(edges, r);
       forall n :: n in Nodes(edges) ==> scores[n] == At(r)(n) / total
  }

  // ── The loops ───────────────────────────────────────────────────────────

  /** The inner loop over `in_neighbors[n]`, with its guard against a zero out-degree. */
  method NewRank(ghost edges: EdgeList, nodes: set<int>, outbound: Neighbours, inbound: Neighbours,
                 d: real, rank: Rank, n: int) returns (r: real)
    requires nodes == rank.Keys == Nodes(edges) && Indexes(edges, outbound, inbound) && n in nodes
    ensures r == Step(edges, d, rank)[n]
  {
    hide Part, Times, Nodes, Predecessors, Successors;
    var preds := Lookup(inbound, n);
    r := TeleportShare(nodes, d);
    ghost var shares := Share(edges, At(rank));
    PredecessorsAreNodes(edges, n);
    TimesAdds(d, 0.0, 0.0);
    for i := 0 to |preds|
      invariant r == Teleport(edges, d) + Times(d, SumSeq(preds[..i], shares))
    {
      r := AddShare(edges, |Lookup(outbound, preds[i])|, d, rank, preds[i], r);
      assert preds[..i + 1][..i] == preds[..i];
      TimesAdds(d, SumSeq(preds[..i], shares), shares(preds[i]));
    }
    assert preds[..|preds|] == preds;
    ReceivedFromPredecessors(edges, edges, n, At(rank));
    StepAt(edges, d, rank, n);
  }

  method TeleportShare(nodes: set<int>, d: real) returns (r: real)
    requires nodes != {}
    ensures r == Part(1.0 - d, |nodes|)
  {
    r := (1.0 - d) / |nodes| as real;
  }

  lemma StepAt(edges: EdgeList, d: real, r: Rank, n: int)
    requires n in Nodes(edges)
    ensures At(Step(edges, d, r))(n) == Teleport(edges, d) + Times(d, Received(edges, At(r))(n))
  {
    hide Times, Teleport, Received;
  }

  method AddShare(ghost edges: EdgeList, degree: nat, d: real, rank: Rank, pred: int, r: real) returns (r': real)
    requires pred in rank && degree == OutDegree(edges, pred)
    ensures r' == r + Times(d, Share(edges, At(rank))(pred))
  {
    TimesAdds(d, 0.0, 0.0);
    if degree > 0 {
      ProductOverQuotient(d, rank[pred], degree as real);
      r' := r + d * rank[pred] / degree as real;
    } else {
      r' := r;
    }
  }

  lemma ProductOverQuotient(d: real, x: real, k: real)
    requires k > 0.0
    ensures d * x / k == d * (x / k)
  {}

  lemma {:induction false} PredecessorsAreNodes(edges: EdgeList, n: int)
    ensures forall p :: p in Predecessors(edges, n) ==> p in Nodes(edges)
  {
    if edges != [] {
      PredecessorsAreNodes(edges[..|edges| - 1], n);
    }
  }

  lemma {:induction false} ReceivedFromPredecessors(all: EdgeList, edges: EdgeList, n: int, r: int -> real)
    ensures SumSeq(Predecessors(edges, n), Share(all, r)) == SumSeq(edges, Filed(Target(), Flow(all, r), n))
  {
    hide Part;
    if edges != [] {
      var before, last := edges[..|edges| - 1], edges[|edges| - 1];
      ReceivedFromPredecessors(all, before, n, r);
      if last.target == n {
        var preds := Predecessors(before, n);
        assert (preds + [last.source])[..|preds|] == preds;
      }
    }
  }

  method PowerStep(ghost edges: EdgeList, nodes: set<int>, outbound: Neighbours, inbound: Neighbours,
                   d: real, rank: Rank) returns (newRank: Rank)
    requires nodes == rank.Keys == Nodes(edges) && Indexes(edges, outbound, inbound)
    ensures newRank == Step(edges, d, rank)
  {
    hide Part, Times, Nodes, Received, Teleport;
    newRank := map[];
    var rest := nodes;
    while rest != {}
      invariant rest <= Nodes(edges) && newRank.Keys == Nodes(edges) - rest
      invariant forall n :: n in newRank ==> newRank[n] == Step(edges, d, rank)[n]
      decreases rest
    {
      SomeMember(rest);
      var n :| n in rest;
      var r := NewRank(edges, nodes, outbound, inbound, d, rank, n);
      newRank, rest := newRank[n := r], rest - {n};
    }
    assert forall n :: n in newRank.Keys ==> newRank[n] == Step(edges, d, rank)[n];
  }

  method L1Distance(edges: EdgeList, newRank: Rank, rank: Rank) returns (diff: real)
    requires newRank.Keys == rank.Keys == Nodes(edges)
    ensures diff == Distance(edges, newRank, rank)
  {
    hide Nodes;
    diff := 0.0;
    var rest := Nodes(edges);
    while rest != {}
      invariant rest <= Nodes(edges)
      invariant diff + SumSet(rest, Gap(newRank, rank)) == Distance(edges, newRank, rank)
      decreases rest
    {
      SomeMember(rest);
      var n :| n in rest;
      SumSetRemove(rest, n, Gap(newRank, rank));
      assert At(newRank)(n) == newRank[n] && At(rank)(n) == rank[n];
      diff, rest := diff + Abs(newRank[n] - rank[n]), rest - {n};
    }
  }

  method Total(edges: EdgeList, rank: Rank) returns (total: real)
    requires rank.Keys == Nodes(edges)
    ensures total == Mass(edges, rank)
  {
    hide Nodes;
    total := 0.0;
    var rest := Nodes(edges);
    while rest != {}
      invariant rest <= Nodes(edges) && total + SumSet(rest, At(rank)) == Mass(edges, rank)
      decreases rest
    {
      SomeMember(rest);
      var n :| n in rest;
      SumSetRemove(rest, n, At(rank));
      total, rest := total + rank[n], rest - {n};
    }
  }

  method InitialRank(ghost edges: EdgeList, nodes: set<int>) returns (rank: Rank)
    requires nodes == Nodes(edges)
    ensures rank == Uniform(edges) && rank.Keys == nodes
  {
    hide Nodes;
    if nodes == {} {
      return map[];
    }
    var share := 1.0 / |nodes| as real;
    assert share == Part(1.0, |nodes|);
    hide Part;
    rank := map n | n in nodes :: share;
  }

  method Normalise(edges: EdgeList, rank: Rank) returns (scores: Rank)
    requires rank.Keys == Nodes(edges)
    ensures Normalised(edges, rank, scores)
  {
    hide Nodes, Mass;
    var total := Total(edges, rank);
    if total == 0.0 {
      total := 1.0;
    }
    scores := map n | n in Nodes(edges) :: rank[n] / total;
  }

  lemma NoNodesExactly(edges: EdgeList)
    ensures Nodes(edges) == {} <==> edges == []
  {}

  method Pagerank(edges: EdgeList, damping: real, maxIter: nat, tol: real) returns (scores: Rank)
    ensures edges == [] ==> scores == map[]
    ensures edges != [] ==> exists k: nat :: StopsAfter(edges, damping, maxIter, tol, k)
                                          && Normalised(edges, Ranks(edges, damping, k), scores)
  {
    hide Part, Times, Step, Distance, Mass, Normalised, Nodes, Indexes, Uniform;
    NoNodesExactly(edges);
    var nodes, outbound, inbound := BuildIndex(edges);
    if |nodes| == 0 {
      return map[];
    }
    var rank := InitialRank(edges, nodes);
    var i := 0;
    var done := false;
    while i < maxIter && !done
      invariant 0 <= i <= maxIter && rank == Ranks(edges, damping, i)
      invariant forall j :: 0 < j < i ==> Diff(edges, damping, j) >= tol
      invariant done ==> i > 0 && Diff(edges, damping, i) < tol
      invariant !done && i > 0 ==> Diff(edges, damping, i) >= tol
      decreases maxIter - i
    {
      var newRank := PowerStep(edges, nodes, outbound, inbound, damping, rank);
      var diff := L1Distance(edges, newRank, rank);
      rank, i := newRank, i + 1;
      done := diff < tol;
    }
    scores := Normalise(edges, rank);
    assert StopsAfter(edges, damping, maxIter, tol, i);
  }

  // ── Mass ────────────────────────────────────────────────────────────────

  lemma OneMore(k: nat, c: real)
    ensures Times((k + 1) as real, c) == Times(k as real, c) + c
    ensures Times(0.0, c) == 0.0
  {}

  lemma {:induction false} OutEdgesCarryTheirShare(all: EdgeList, edges: EdgeList, n: int, r: int -> real)
    ensures SumSeq(edges, Filed(Source(), Flow(all, r), n)) == Times(|Successors(edges, n)| as real, Share(all, r)(n))
  {
    hide Part, Times;
    OneMore(0, Share(all, r)(n));
    if edges != [] {
      OutEdgesCarryTheirShare(all, edges[..|edges| - 1], n, r);
      OneMore(|Successors(edges[..|edges| - 1], n)|, Share(all, r)(n));
    }
  }

  lemma HeldIsLinked(edges: EdgeList, r: int -> real, n: int)
    ensures FiledSum(edges, Source(), Flow(edges, r))(n) == Linked(edges, r)(n)
  {
    hide Part, Times;
    OutEdgesCarryTheirShare(edges, edges, n, r);
    PartLaws(r(n), 0.0, OutDegree(edges, n));
    OneMore(0, Share(edges, r)(n));
  }

  /** What all nodes receive is what the linked nodes hold: edges move rank, they do not make it. */
  lemma FlowConserved(edges: EdgeList, r: int -> real)
    ensures SumSet(Nodes(edges), Received(edges, r)) == SumSet(Nodes(edges), Linked(edges, r))
  {
    hide Part, SumSeq, SumSet;
    var w := Flow(edges, r);
    SumByKey(Nodes(edges), edges, Target(), w);
    SumByKey(Nodes(edges), edges, Source(), w);
    forall n | n in Nodes(edges) ensures FiledSum(edges, Source(), w)(n) == Linked(edges, r)(n) {
      HeldIsLinked(edges, r, n);
    }
    SumSetCong(Nodes(edges), FiledSum(edges, Source(), w), Linked(edges, r));
  }

  /** Each iteration's total is the teleport share plus the damped mass of the linked nodes. */
  lemma MassStep(edges: EdgeList, d: real, r: Rank)
    requires edges != []
    ensures Mass(edges, Step(edges, d, r)) == (1.0 - d) + Times(d, LinkedMass(edges, r))
  {
    hide Part, Times, SumSet, FiledSum, Received, Step, Nodes, Successors;
    var nodes := Nodes(edges);
    var teleport: int -> real := n => Teleport(edges, d);
    var damped: int -> real := n => Times(d, Received(edges, At(r))(n));
    SumSetConst(nodes, Teleport(edges, d), teleport);
    PartLaws(1.0 - d, 0.0, |nodes|);
    FlowConserved(edges, At(r));
    SumSetTimes(nodes, d, Received(edges, At(r)), damped);
    forall n | n in nodes ensures At(Step(edges, d, r))(n) == teleport(n) + damped(n) {
      StepAt(edges, d, r, n);
    }
    SumSetAdd(nodes, teleport, damped, At(Step(edges, d, r)));
  }

  ghost predicate NonNegative(r: Rank) {
    forall n :: n in r ==> r[n] >= 0.0
  }

  lemma LinkedMassWithinMass(edges: EdgeList, r: Rank)
    requires NonNegative(r)
    ensures 0.0 <= LinkedMass(edges, r) <= Mass(edges, r)
  {
    var zero: int -> real := n => 0.0;
    SumSetConst(Nodes(edges), 0.0, zero);
    SumSetMono(Nodes(edges), zero, Linked(edges, At(r)));
    SumSetMono(Nodes(edges), Linked(edges, At(r)), At(r));
  }

  lemma ReceivedNonNegative(edges: EdgeList, r: Rank, n: int)
    requires NonNegative(r)
    ensures Received(edges, At(r))(n) >= 0.0
  {
    hide Part, SumSeq;
    var flow := Flow(edges, At(r));
    forall e | e in edges ensures flow(e) >= 0.0 {
      PartLaws(At(r)(e.source), 0.0, OutDegree(edges, e.source));
      assert flow(e) == Share(edges, At(r))(e.source);
    }
    SumSeqNonNegative(edges, Filed(Target(), flow, n));
  }

  lemma UniformMass(edges: EdgeList)
    requires edges != []
    ensures Mass(edges, Uniform(edges)) == 1.0 && NonNegative(Uniform(edges))
  {
    hide Part, SumSet;
    SumSetConst(Nodes(edges), Part(1.0, |Nodes(edges)|), At(Uniform(edges)));
    PartLaws(1.0, 0.0, |Nodes(edges)|);
  }

  /** Every rank keeps its teleport share, and the total stays between `1-d` and 1. */
  lemma {:induction false} MassBounds(edges: EdgeList, d: real, k: nat)
    requires edges != [] && 0.0 <= d <= 1.0
    ensures forall n :: n in Nodes(edges) ==> Ranks(edges, d, k)[n] >= Teleport(edges, d)
    ensures NonNegative(Ranks(edges, d, k))
    ensures 1.0 - d <= Mass(edges, Ranks(edges, d, k)) <= 1.0
  {
    hide Part, Times, Mass, LinkedMass, Received, Step;
    PartLaws(1.0 - d, 0.0, |Nodes(edges)|);
    if k == 0 {
      UniformMass(edges);
      PartMono(1.0 - d, 1.0, |Nodes(edges)|);
    } else {
      MassBounds(edges, d, k - 1);
      var r := Ranks(edges, d, k - 1);
      MassStepBounds(edges, d, r);
      assert Ranks(edges, d, k) == Step(edges, d, r);
      forall n | n in Nodes(edges) ensures Ranks(edges, d, k)[n] >= Teleport(edges, d) {
        StepAt(edges, d, r, n);
        ReceivedNonNegative(edges, r, n);
        TimesMono(d, 0.0, Received(edges, At(r))(n));
        TimesAdds(d, 0.0, 0.0);
      }
    }
  }

  lemma MassStepBounds(edges: EdgeList, d: real, r: Rank)
    requires edges != [] && 0.0 <= d <= 1.0 && NonNegative(r) && Mass(edges, r) <= 1.0
    ensures 1.0 - d <= Mass(edges, Step(edges, d, r)) <= 1.0
  {
    hide Mass, LinkedMass, Step;
    MassStep(edges, d, r);
    LinkedMassWithinMass(edges, r);
    TimesFraction(d, LinkedMass(edges, r));
  }

  /** The scores handed back sum to exactly 1 (before rounding), and each keeps at least the teleport share. */
  lemma ScoresSumToOne(edges: EdgeList, d: real, k: nat, scores: Rank)
    requires edges != [] && 0.0 <= d < 1.0
    requires Normalised(edges, Ranks(edges, d, k), scores)
    ensures Mass(edges, scores) == 1.0
    ensures forall n :: n in Nodes(edges) ==> scores[n] >= Teleport(edges, d) > 0.0
  {
    hide Part, Times, SumSet, Ranks;
    MassBounds(edges, d, k);
    PartLaws(1.0 - d, 0.0, |Nodes(edges)|);
    var r := Ranks(edges, d, k);
    var total := Mass(edges, r);
    forall n | n in Nodes(edges)
      ensures At(r)(n) == Times(total, At(scores)(n)) && scores[n] >= r[n]
    {
      QuotientGrows(r[n], total);
    }
    SumSetTimes(Nodes(edges), total, At(scores), At(r));
    OneFactor(total, Mass(edges, scores));
  }

  lemma OneFactor(a: real, b: real)
    requires a > 0.0 && Times(a, b) == a
    ensures b == 1.0
  {
    assert a * (b - 1.0) == 0.0;
  }

  lemma QuotientGrows(x: real, total: real)
    requires 0.0 <= x && 0.0 < total <= 1.0
    ensures x / total >= x && Times(total, x / total) == x
  {
    QuotientLaws(x, 0.0, total);
    ProductMono(x / total, total, 1.0);
  }

  // ── Convergence ─────────────────────────────────────────────────────────

  lemma ShareOfGap(edges: EdgeList, r: Rank, s: Rank, n: int)
    ensures Abs(Share(edges, At(r))(n) - Share(edges, At(s))(n)) == Share(edges, Gap(r, s))(n)
  {
    hide Part;
    var k := OutDegree(edges, n);
    PartLaws(At(r)(n), At(s)(n), k);
    PartAbs(At(r)(n) - At(s)(n), k);
  }

  lemma {:induction false} FiledGap(all: EdgeList, edges: EdgeList, r: Rank, s: Rank, n: int)
    ensures Abs(SumSeq(edges, Filed(Target(), Flow(all, At(r)), n)) - SumSeq(edges, Filed(Target(), Flow(all, At(s)), n)))
            <= SumSeq(edges, Filed(Target(), Flow(all, Gap(r, s)), n))
  {
    hide Part;
    if edges != [] {
      FiledGap(all, edges[..|edges| - 1], r, s, n);
      ShareOfGap(all, r, s, edges[|edges| - 1].source);
    }
  }

  lemma StepGapAt(edges: EdgeList, d: real, r: Rank, s: Rank, n: int)
    requires 0.0 <= d && n in Nodes(edges)
    ensures Gap(Step(edges, d, r), Step(edges, d, s))(n) <= Times(d, Received(edges, Gap(r, s))(n))
  {
    hide Part, Times, SumSeq, Step, Teleport;
    StepAt(edges, d, r, n);
    StepAt(edges, d, s, n);
    FiledGap(edges, edges, r, s, n);
    var x, y := Received(edges, At(r))(n), Received(edges, At(s))(n);
    TimesAdds(d, x, y);
    TimesAbs(d, x - y);
    TimesMono(d, Abs(x - y), Received(edges, Gap(r, s))(n));
  }

  /** One step is a contraction in L1 with factor `d`, whatever the graph. */
  lemma StepContracts(edges: EdgeList, d: real, r: Rank, s: Rank)
    requires edges != [] && 0.0 <= d
    ensures Distance(edges, Step(edges, d, r), Step(edges, d, s)) <= Times(d, Distance(edges, r, s))
  {
    hide Part, Times, SumSet, FiledSum, Step, Nodes, Successors;
    var nodes := Nodes(edges);
    var gap := Gap(r, s);
    var damped: int -> real := n => Times(d, Received(edges, gap)(n));
    forall n | n in nodes ensures Gap(Step(edges, d, r), Step(edges, d, s))(n) <= damped(n) {
      StepGapAt(edges, d, r, s, n);
    }
    SumSetMono(nodes, Gap(Step(edges, d, r), Step(edges, d, s)), damped);
    SumSetTimes(nodes, d, Received(edges, gap), damped);
    FlowConserved(edges, gap);
    forall n | n in nodes ensures Linked(edges, gap)(n) <= gap(n) {
      assert gap(n) == Abs(At(r)(n) - At(s)(n));
    }
    SumSetMono(nodes, Linked(edges, gap), gap);
    TimesMono(d, SumSet(nodes, Linked(edges, gap)), SumSet(nodes, gap));
  }

  function Power(d: real, k: nat): real {
    if k == 0 then 1.0 else Times(d, Power(d, k - 1))
  }

  lemma DistanceWithinMasses(edges: EdgeList, r: Rank, s: Rank)
    requires NonNegative(r) && NonNegative(s)
    ensures Distance(edges, r, s) <= Mass(edges, r) + Mass(edges, s)
  {
    var both: int -> real := n => At(r)(n) + At(s)(n);
    forall n | n in Nodes(edges) ensures Gap(r, s)(n) <= both(n) {
      assert At(r)(n) >= 0.0 && At(s)(n) >= 0.0;
    }
    SumSetMono(Nodes(edges), Gap(r, s), both);
    SumSetAdd(Nodes(edges), At(r), At(s), both);
  }

  /** Successive differences shrink geometrically: the k-th is at most 2·d^(k-1). */
  lemma {:induction false} DiffShrinks(edges: EdgeList, d: real, k: nat)
    requires edges != [] && 0.0 <= d <= 1.0 && k > 0
    ensures Diff(edges, d, k) <= 2.0 * Power(d, k - 1)
  {
    hide Part, Times, Step, Distance, Mass, Uniform;
    if k == 1 {
      MassBounds(edges, d, 0);
      MassBounds(edges, d, 1);
      DistanceWithinMasses(edges, Ranks(edges, d, 1), Ranks(edges, d, 0));
    } else {
      DiffShrinks(edges, d, k - 1);
      StepContracts(edges, d, Ranks(edges, d, k - 1), Ranks(edges, d, k - 2));
      var p := Power(d, k - 2);
      TimesMono(d, Diff(edges, d, k - 1), p + p);
      TimesAdds(d, p, p);
    }
  }

  lemma {:induction false} PowerAdds(d: real, i: nat, j: nat)
    ensures Power(d, i + j) == Times(Power(d, i), Power(d, j))
  {
    hide Times;
    if i == 0 {
      TimesAdds(1.0, Power(d, j), 0.0);
    } else {
      PowerAdds(d, i - 1, j);
      TimesAssociative(d, Power(d, i - 1), Power(d, j));
    }
  }

  lemma {:induction false} PowerDecreases(d: real, i: nat, j: nat)
    requires 0.0 <= d <= 1.0 && i <= j
    ensures 0.0 <= Power(d, j) <= Power(d, i)
    decreases j
  {
    hide Times;
    if i < j {
      PowerDecreases(d, i, j - 1);
      TimesFraction(d, Power(d, j - 1));
    } else if i > 0 {
      PowerDecreases(d, i - 1, i - 1);
      TimesFraction(d, Power(d, i - 1));
    }
  }

  const DAMPING := 0.85
  const MAX_ITER: nat := 100
  const TOL := 0.000001

  lemma ProductBound(p: real, q: real, b: real, c: real)
    requires 0.0 <= p <= b && 0.0 <= q <= c
    ensures 0.0 <= p * q <= b * c
  {
    ProductMono(p, 0.0, q);
    ProductMono(p, q, c);
    ProductMono(c, p, b);
  }

  lemma PowerSquares(d: real, k: nat, bound: real)
    requires 0.0 <= Power(d, k) <= bound
    ensures 0.0 <= Power(d, 2 * k) <= bound * bound
  {
    PowerAdds(d, k, k);
    ProductBound(Power(d, k), Power(d, k), bound, bound);
  }

  lemma FifthPower()
    ensures Power(DAMPING, 5) == 0.4437053125
  {
    var d := DAMPING;
    assert Power(d, 1) == d * Power(d, 0);
    assert Power(d, 2) == d * Power(d, 1) == 0.7225;
    assert Power(d, 3) == d * Power(d, 2) == 0.614125;
    assert Power(d, 4) == d * Power(d, 3) == 0.52200625;
  }

  lemma DefaultPowerSmall()
    ensures 2.0 * Power(DAMPING, 90) < TOL
  {
    var d := DAMPING;
    FifthPower();
    PowerSquares(d, 5, 0.44371);
    PowerSquares(d, 10, 0.1969);
    PowerSquares(d, 20, 0.03878);
    PowerSquares(d, 40, 0.001504);
    PowerAdds(d, 10, 80);
    ProductBound(Power(d, 10), Power(d, 80), 0.1969, 0.000002263);
  }

  /** At the defaults the tolerance break always fires, by iteration 91: `max_iter` is never what stops the loop. */
  lemma DefaultsConverge(edges: EdgeList, k: nat)
    requires edges != [] && StopsAfter(edges, DAMPING, MAX_ITER, TOL, k)
    ensures 0 < k <= 91 && Diff(edges, DAMPING, k) < TOL
  {
    hide Diff, Power;
    DefaultPowerSmall();
    DiffShrinks(edges, DAMPING, 91);
  }
}
