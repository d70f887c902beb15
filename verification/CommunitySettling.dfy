/** Label propagation (`detect_communities`, backend/graph_analytics.py:188-207) settles when all weights are positive:
    every change raises the weight between nodes with equal labels, or keeps it and lowers the labels. */
module CommunitySettling {
  import opened Communities
  import opened GraphModel
  import opened RealSums
  import opened Sets

  ghost predicate PositiveWeights(edges: EdgeList) {
    forall e :: e in edges ==> WeightOf(e) > 0.0
  }

  // ── The weight between two nodes ────────────────────────────────────────

  /** The entry `adj[n][m]`, zero where there is none. */
  function Between(edges: EdgeList, n: int, m: int): real {
    Entry(Weighted(edges, n), m)
  }

  function Entry(w: Weights, m: int): real {
    if m in w then w[m] else 0.0
  }

  lemma AddWeightAt(w: Weights, v: int, x: real, m: int)
    ensures Entry(AddWeight(w, v, x), m) == Entry(w, m) + (if m == v then x else 0.0)
  {}

  lemma BetweenNext(edges: EdgeList, e: Edge, n: int, m: int)
    ensures Between(edges + [e], n, m)
            == Between(edges, n, m) + (if e.source == n && e.target == m then WeightOf(e) else 0.0)
               + (if e.target == n && e.source == m then WeightOf(e) else 0.0)
  {
    assert (edges + [e])[..|edges|] == edges;
    var w := Weighted(edges, n);
    var w' := if e.source == n then AddWeight(w, e.target, WeightOf(e)) else w;
    AddWeightAt(w, e.target, WeightOf(e), m);
    AddWeightAt(w', e.source, WeightOf(e), m);
    hide AddWeight, WeightOf;
    assert Weighted(edges + [e], n) == if e.target == n then AddWeight(w', e.source, WeightOf(e)) else w';
  }

  /** The weight of a single edge, with 1 for a missing or zero one, lies between its endpoints; a self-loop is seen from
      both of its ends, so twice. */
  lemma BetweenOfOne(e: Edge, n: int, m: int)
    ensures var w := if e.weight.None? || e.weight.value == 0.0 then 1.0 else e.weight.value;
            Between([e], n, m)
            == if (e.source == n && e.target == m) || (e.source == m && e.target == n)
               then (if n == m then w + w else w) else 0.0
  {
    BetweenNext([], e, n, m);
    assert [] + [e] == [e];
  }

  /** Weights add up: parallel edges, in either direction, count together. */
  lemma {:induction false} BetweenAdds(a: EdgeList, b: EdgeList, n: int, m: int)
    ensures Between(a + b, n, m) == Between(a, n, m) + Between(b, n, m)
  {
    hide Between, WeightOf;
    if b == [] {
      assert a + b == a;
      NothingBetween(n, m);
    } else {
      var before, last := b[..|b| - 1], b[|b| - 1];
      BetweenAdds(a, before, n, m);
      BetweenNext(a + before, last, n, m);
      BetweenNext(before, last, n, m);
      assert a + b == (a + before) + [last] && b == before + [last];
    }
  }

  lemma NothingBetween(n: int, m: int)
    ensures Between([], n, m) == 0.0
  {}

  lemma {:induction false} BetweenIsSymmetric(edges: EdgeList, n: int, m: int)
    ensures Between(edges, n, m) == Between(edges, m, n)
  {
    if edges != [] {
      BetweenIsSymmetric(edges[..|edges| - 1], n, m);
    }
  }

  lemma {:induction false} WeightsArePositive(edges: EdgeList, n: int)
    requires PositiveWeights(edges)
    ensures forall m :: m in Weighted(edges, n) ==> Weighted(edges, n)[m] > 0.0
  {
    if edges != [] {
      var before, last := edges[..|edges| - 1], edges[|edges| - 1];
      assert edges == before + [last];
      assert last in edges && forall e :: e in before ==> e in edges;
      WeightsArePositive(before, n);
    }
  }

  // ── Scores over all nodes ───────────────────────────────────────────────

  /** What neighbour `m` of `n` contributes to the score of `tag`. */
  ghost function Term(edges: EdgeList, labels: Labels, n: int, tag: int): int -> real {
    m => if m in labels && labels[m] == tag then Between(edges, n, m) else 0.0
  }

  ghost function Pull(edges: EdgeList, labels: Labels, n: int, tag: int): real {
    SumSet(Nodes(edges), Term(edges, labels, n, tag))
  }

  lemma {:induction false} SumOverLarger(s: set<int>, t: set<int>, f: int -> real)
    requires s <= t && forall x :: x in t && x !in s ==> f(x) == 0.0
    ensures SumSet(t, f) == SumSet(s, f)
    decreases t
  {
    var extra := t - s;
    if extra == {} {
      forall x | x in t ensures x in s {
        assert x in s || x in extra;
      }
      assert t == s;
    } else {
      SomeMember(extra);
      var x :| x in extra;
      SumSetRemove(t, x, f);
      SumOverLarger(s, t - {x}, f);
    }
  }

  lemma PullIsScore(edges: EdgeList, labels: Labels, n: int, tag: int)
    requires Labelled(edges, labels)
    ensures Pull(edges, labels, n, tag) == Score(Weighted(edges, n), labels, tag)
  {
    var w := Weighted(edges, n);
    NeighboursAreLabelled(edges, labels, n);
    hide Weighted, Nodes;
    SumOverLarger(w.Keys, Nodes(edges), Term(edges, labels, n, tag));
    SumSetCong(w.Keys, Term(edges, labels, n, tag), Bearing(w, labels, tag));
  }

  /** A node with neighbours takes a label that one of them bears; no other label of theirs weighs more, and those that
      weigh as much are larger. Other nodes keep their labels. */
  lemma RelabelTakesHeaviest(edges: EdgeList, labels: Labels, n: int)
    requires Labelled(edges, labels) && n in labels && Weighted(edges, n) != map[]
    ensures var next, w := Relabel(edges, labels, n), Weighted(edges, n);
            && n in next
            && (exists v :: v in w && v in labels && labels[v] == next[n])
            && (forall v :: v in w && v in labels && labels[v] != next[n] ==>
                  || Pull(edges, labels, n, labels[v]) < Pull(edges, labels, n, next[n])
                  || (Pull(edges, labels, n, labels[v]) == Pull(edges, labels, n, next[n]) && next[n] < labels[v]))
            && forall m :: m != n && m in labels ==> m in next && next[m] == labels[m]
  {
    NeighboursAreLabelled(edges, labels, n);
    hide Weighted, Nodes, Pull, Score;
    var w := Weighted(edges, n);
    var b := Best(w, labels);
    assert Relabel(edges, labels, n) == labels[n := b];
    PullIsScore(edges, labels, n, b);
    forall v | v in w && v in labels && labels[v] != b
      ensures || Pull(edges, labels, n, labels[v]) < Pull(edges, labels, n, b)
              || (Pull(edges, labels, n, labels[v]) == Pull(edges, labels, n, b) && b < labels[v])
    {
      PullIsScore(edges, labels, n, labels[v]);
      assert Borne(w, labels, labels[v]);
      assert Outranks(w, labels, b, labels[v]);
    }
  }

  // ── The weight inside the communities ───────────────────────────────────

  ghost function OwnPull(edges: EdgeList, labels: Labels): int -> real {
    n => if n in labels then Pull(edges, labels, n, labels[n]) else 0.0
  }

  /** The total weight between nodes with equal labels, each pair seen from both sides. */
  ghost function Intra(edges: EdgeList, labels: Labels): real {
    SumSet(Nodes(edges), OwnPull(edges, labels))
  }

  /** How another node's pull changes when `x` passes from label `a` to label `b`. */
  lemma PullChanges(edges: EdgeList, labels: Labels, x: int, b: int, n: int, tag: int)
    requires Labelled(edges, labels) && x in labels
    ensures var a := labels[x];
            Pull(edges, labels[x := b], n, tag)
            == Pull(edges, labels, n, tag) + (if tag == b then Between(edges, n, x) else 0.0)
               - (if tag == a then Between(edges, n, x) else 0.0)
  {
    hide Between, Nodes;
    var f, g := Term(edges, labels, n, tag), Term(edges, labels[x := b], n, tag);
    SumSetRemove(Nodes(edges), x, f);
    SumSetRemove(Nodes(edges), x, g);
    SumSetCong(Nodes(edges) - {x}, f, g);
  }

  ghost function Gain(edges: EdgeList, labels: Labels, x: int, b: int): int -> real
    requires x in labels
  {
    m => Term(edges, labels, x, b)(m) - Term(edges, labels, x, labels[x])(m)
  }

  lemma GainTotal(edges: EdgeList, labels: Labels, x: int, b: int)
    requires Labelled(edges, labels) && x in labels && b != labels[x]
    ensures SumSet(Nodes(edges) - {x}, Gain(edges, labels, x, b))
            == Pull(edges, labels, x, b) - (Pull(edges, labels, x, labels[x]) - Between(edges, x, x))
  {
    hide Between, Nodes;
    var s, f, g := Nodes(edges), Term(edges, labels, x, b), Term(edges, labels, x, labels[x]);
    SumSetAdd(s - {x}, Gain(edges, labels, x, b), g, f);
    SumSetRemove(s, x, f);
    SumSetRemove(s, x, g);
  }

  lemma OwnPullChanges(edges: EdgeList, labels: Labels, x: int, b: int, n: int)
    requires Labelled(edges, labels) && x in labels && n in Nodes(edges) && n != x
    ensures OwnPull(edges, labels[x := b])(n) == OwnPull(edges, labels)(n) + Gain(edges, labels, x, b)(n)
  {
    hide Between, Nodes, Pull;
    var a, next := labels[x], labels[x := b];
    assert n in labels.Keys;
    assert n in labels && next[n] == labels[n];
    PullChanges(edges, labels, x, b, n, labels[n]);
    BetweenIsSymmetric(edges, n, x);
    var up, down := Term(edges, labels, x, b)(n), Term(edges, labels, x, a)(n);
    assert up == if labels[n] == b then Between(edges, x, n) else 0.0;
    assert down == if labels[n] == a then Between(edges, x, n) else 0.0;
    assert Gain(edges, labels, x, b)(n) == up - down;
  }

  lemma OwnPullOfMoved(edges: EdgeList, labels: Labels, x: int, b: int)
    requires Labelled(edges, labels) && x in labels && b != labels[x]
    ensures OwnPull(edges, labels)(x) == Pull(edges, labels, x, labels[x])
    ensures OwnPull(edges, labels[x := b])(x) == Pull(edges, labels, x, b) + Between(edges, x, x)
  {
    hide Between, Nodes, Pull;
    PullChanges(edges, labels, x, b, x, b);
  }

  /** Relabelling one node changes the inner weight by twice what the node's pull gains. */
  lemma IntraChanges(edges: EdgeList, labels: Labels, x: int, b: int)
    requires Labelled(edges, labels) && x in labels && b != labels[x]
    ensures Intra(edges, labels[x := b]) - Intra(edges, labels)
            == 2.0 * (Pull(edges, labels, x, b) - Pull(edges, labels, x, labels[x]) + Between(edges, x, x))
  {
    var s, next := Nodes(edges), labels[x := b];
    var f, g, gain := OwnPull(edges, labels), OwnPull(edges, next), Gain(edges, labels, x, b);
    hide Between, Nodes, Pull, Gain, OwnPull;
    forall n | n in s - {x} ensures g(n) == f(n) + gain(n) {
      OwnPullChanges(edges, labels, x, b, n);
    }
    OwnPullOfMoved(edges, labels, x, b);
    SumSetRemove(s, x, f);
    SumSetRemove(s, x, g);
    SumSetAdd(s - {x}, f, gain, g);
    GainTotal(edges, labels, x, b);
  }

  // ── Every change is an improvement ──────────────────────────────────────

  function LabelAt(labels: Labels): int -> int {
    n => if n in labels then labels[n] else 0
  }

  ghost function LabelTotal(edges: EdgeList, labels: Labels): int {
    Total(Nodes(edges), LabelAt(labels))
  }

  ghost predicate Improves(edges: EdgeList, labels: Labels, next: Labels) {
    || Intra(edges, next) > Intra(edges, labels)
    || (Intra(edges, next) == Intra(edges, labels) && LabelTotal(edges, next) < LabelTotal(edges, labels))
  }

  lemma LabelTotalChanges(edges: EdgeList, labels: Labels, x: int, b: int)
    requires Labelled(edges, labels) && x in labels
    ensures LabelTotal(edges, labels[x := b]) == LabelTotal(edges, labels) - labels[x] + b
  {
    var f, g := LabelAt(labels), LabelAt(labels[x := b]);
    TotalRemove(Nodes(edges), x, f);
    TotalRemove(Nodes(edges), x, g);
    TotalCong(Nodes(edges) - {x}, f, g);
  }

  /** The best label pulls at least as much as the node's own, and if not more it is smaller. */
  lemma BestPulls(edges: EdgeList, labels: Labels, x: int)
    requires PositiveWeights(edges) && Labelled(edges, labels) && x in labels
    requires Weighted(edges, x) != map[] && Weighted(edges, x).Keys <= labels.Keys
    ensures var a, b := labels[x], Best(Weighted(edges, x), labels);
            || Pull(edges, labels, x, b) > Pull(edges, labels, x, a)
            || (Pull(edges, labels, x, b) == Pull(edges, labels, x, a) && b <= a)
  {
    var w := Weighted(edges, x);
    var a, b := labels[x], Best(w, labels);
    PullIsScore(edges, labels, x, a);
    PullIsScore(edges, labels, x, b);
    WeightsArePositive(edges, x);
    hide Weighted, Nodes, Pull, Score, Borne;
    BestOutranks(w, labels, b, a);
  }

  lemma BestOutranks(w: Weights, labels: Labels, b: int, a: int)
    requires IsBest(w, labels, b) && forall m :: m in w ==> w[m] > 0.0
    ensures Score(w, labels, b) > Score(w, labels, a) || (Score(w, labels, b) == Score(w, labels, a) && b <= a)
  {
    hide Score;
    if Borne(w, labels, a) {
      assert Outranks(w, labels, b, a);
    } else {
      UnborneScore(w, labels, a);
      BorneScores(w, labels, b);
    }
  }

  lemma UnborneScore(w: Weights, labels: Labels, tag: int)
    requires !Borne(w, labels, tag)
    ensures Score(w, labels, tag) == 0.0
  {
    var f := Bearing(w, labels, tag);
    forall v | v in w.Keys ensures f(v) == 0.0 {}
    SumSetConst(w.Keys, 0.0, f);
  }

  lemma BorneScores(w: Weights, labels: Labels, tag: int)
    requires Borne(w, labels, tag) && forall m :: m in w ==> w[m] > 0.0
    ensures Score(w, labels, tag) > 0.0
  {
    var v :| v in w && v in labels && labels[v] == tag;
    var f, zero := Bearing(w, labels, tag), (_: int) => 0.0;
    SumSetRemove(w.Keys, v, f);
    SumSetConst(w.Keys - {v}, 0.0, zero);
    forall u | u in w.Keys - {v} ensures zero(u) <= f(u) {
      assert u in w;
    }
    SumSetMono(w.Keys - {v}, zero, f);
  }

  lemma BetweenNotNegative(edges: EdgeList, x: int)
    requires PositiveWeights(edges)
    ensures Between(edges, x, x) >= 0.0
  {
    WeightsArePositive(edges, x);
  }

  lemma RelabelImproves(edges: EdgeList, labels: Labels, x: int)
    requires PositiveWeights(edges) && Labelled(edges, labels) && x in labels
    ensures var next := Relabel(edges, labels, x); next == labels || Improves(edges, labels, next)
  {
    NeighboursAreLabelled(edges, labels, x);
    hide Weighted, Nodes, Pull, Intra, LabelTotal, Between, IsBest;
    var w := Weighted(edges, x);
    if w != map[] && Best(w, labels) != labels[x] {
      var b := Best(w, labels);
      BestPulls(edges, labels, x);
      IntraChanges(edges, labels, x, b);
      LabelTotalChanges(edges, labels, x, b);
      BetweenNotNegative(edges, x);
    } else if w != map[] {
      assert labels[x := Best(w, labels)] == labels;
    }
  }

  lemma {:induction false} SweepImproves(edges: EdgeList, labels: Labels, order: seq<int>)
    requires PositiveWeights(edges) && Labelled(edges, labels) && forall n :: n in order ==> n in labels
    ensures var next := Sweep(edges, labels, order); next == labels || Improves(edges, labels, next)
  {
    hide Nodes, Relabel, Intra, LabelTotal;
    if order != [] {
      var before := order[..|order| - 1];
      SweepImproves(edges, labels, before);
      RelabelImproves(edges, Sweep(edges, labels, before), order[|order| - 1]);
    }
  }

  // ── There are finitely many labellings ──────────────────────────────────

  /** All ways to give `x` a label from `values` as well. */
  ghost function Extended(some: set<Labels>, x: int, values: set<int>): set<Labels> {
    if values == {} then {}
    else
      SomeMember(values);
      var v :| v in values;
      (set m | m in some :: m[x := v]) + Extended(some, x, values - {v})
  }

  lemma {:induction false} ExtendedHolds(some: set<Labels>, x: int, values: set<int>, m: Labels, tag: int)
    requires m in some && tag in values
    ensures m[x := tag] in Extended(some, x, values)
  {
    SomeMember(values);
    var v :| v in values
             && Extended(some, x, values) == (set m | m in some :: m[x := v]) + Extended(some, x, values - {v});
    if tag != v {
      ExtendedHolds(some, x, values - {v}, m, tag);
    }
  }

  /** All ways to give the nodes in `keys` labels from `values`. */
  ghost function AllLabels(keys: set<int>, values: set<int>): set<Labels> {
    if keys == {} then {map[]}
    else
      SomeMember(keys);
      var x :| x in keys;
      Extended(AllLabels(keys - {x}, values), x, values)
  }

  lemma {:induction false} AllLabelsHolds(keys: set<int>, values: set<int>, labels: Labels)
    requires forall n :: n in labels <==> n in keys
    requires forall n :: n in labels ==> labels[n] in values
    ensures labels in AllLabels(keys, values)
  {
    if keys == {} {
      assert forall n :: n !in labels;
      assert labels == map[];
    } else {
      SomeMember(keys);
      var x :| x in keys && AllLabels(keys, values) == Extended(AllLabels(keys - {x}, values), x, values);
      var rest := labels - {x};
      AllLabelsHolds(keys - {x}, values, rest);
      ExtendedHolds(AllLabels(keys - {x}, values), x, values, rest, labels[x]);
      assert forall n :: n in rest[x := labels[x]] <==> n in labels;
      assert rest[x := labels[x]] == labels;
    }
  }

  function Power(b: nat, k: nat): nat {
    if k == 0 then 1 else Power(b, k - 1) * b
  }

  lemma {:induction false} ImageSize(some: set<Labels>, x: int, v: int)
    ensures |set m | m in some :: m[x := v]| <= |some|
  {
    if some != {} {
      var l :| l in some;
      var rest := some - {l};
      ImageSize(rest, x, v);
      var image, fewer := set m | m in some :: m[x := v], set m | m in rest :: m[x := v];
      forall i | i in image ensures i in fewer + {l[x := v]} {
        var m :| m in some && i == m[x := v];
        assert m == l || m in rest;
      }
      SubsetSize(image, fewer + {l[x := v]});
    }
  }

  lemma {:induction false} ExtendedCount(some: set<Labels>, x: int, values: set<int>)
    ensures |Extended(some, x, values)| <= |some| * |values|
  {
    SomeMember(values);
    if values != {} {
      var v :| v in values
               && Extended(some, x, values) == (set m | m in some :: m[x := v]) + Extended(some, x, values - {v});
      ImageSize(some, x, v);
      ExtendedCount(some, x, values - {v});
      assert |some| * |values| == |some| * |values - {v}| + |some|;
    }
  }

  lemma {:induction false} AllLabelsCount(keys: set<int>, values: set<int>)
    ensures |AllLabels(keys, values)| <= Power(|values|, |keys|)
  {
    SomeMember(keys);
    if keys != {} {
      var x :| x in keys && AllLabels(keys, values) == Extended(AllLabels(keys - {x}, values), x, values);
      var fewer := AllLabels(keys - {x}, values);
      AllLabelsCount(keys - {x}, values);
      ExtendedCount(fewer, x, values);
      assert |keys| == |keys - {x}| + 1;
      TimesMono(|fewer|, Power(|values|, |keys - {x}|), |values|);
    }
  }

  lemma TimesMono(a: nat, b: nat, n: nat)
    requires a <= b
    ensures a * n <= b * n
  {}

  ghost function Better(edges: EdgeList, labels: Labels): set<Labels> {
    set l | l in AllLabels(Nodes(edges), Nodes(edges)) && Improves(edges, labels, l)
  }

  /** An improvement leaves fewer labellings to improve to. */
  lemma FewerBetter(edges: EdgeList, labels: Labels, next: Labels)
    requires next in AllLabels(Nodes(edges), Nodes(edges)) && Improves(edges, labels, next)
    ensures |Better(edges, next)| < |Better(edges, labels)|
  {
    hide Intra, LabelTotal, AllLabels, Nodes;
    var more, fewer := Better(edges, labels), Better(edges, next);
    assert next in more && next !in fewer;
    assert fewer <= more - {next};
    SubsetSize(fewer, more - {next});
  }

  // ── Propagation settles ─────────────────────────────────────────────────

  ghost predicate Settled(edges: EdgeList, k: nat) {
    SweepAll(edges, Sweeps(edges, k)) == Sweeps(edges, k)
  }

  lemma SweepsAreLabellings(edges: EdgeList, k: nat)
    ensures Sweeps(edges, k) in AllLabels(Nodes(edges), Nodes(edges))
  {
    hide Sweeps, AllLabels, Nodes, Components.Connected;
    LabelsStayInComponent(edges, k);
    AllLabelsHolds(Nodes(edges), Nodes(edges), Sweeps(edges, k));
  }

  lemma NextSweepImproves(edges: EdgeList, k: nat)
    requires PositiveWeights(edges) && !Settled(edges, k)
    ensures Improves(edges, Sweeps(edges, k), Sweeps(edges, k + 1))
  {
    hide Nodes, Intra, LabelTotal, Sweep;
    AscendingIsSorted(Nodes(edges));
    SweepImproves(edges, Sweeps(edges, k), Ascending(Nodes(edges)));
  }

  lemma {:induction false} SettlesFrom(edges: EdgeList, k: nat) returns (j: nat)
    requires PositiveWeights(edges)
    ensures k <= j <= k + |Better(edges, Sweeps(edges, k))| && Settled(edges, j)
    decreases |Better(edges, Sweeps(edges, k))|
  {
    hide Sweeps, Better, AllLabels, Improves, Settled;
    if Settled(edges, k) {
      j := k;
    } else {
      NextSweepImproves(edges, k);
      SweepsAreLabellings(edges, k + 1);
      FewerBetter(edges, Sweeps(edges, k), Sweeps(edges, k + 1));
      j := SettlesFrom(edges, k + 1);
    }
  }

  /** With positive weights some sweep changes nothing, and on n nodes one of the first n^n does, so that a `max_iter`
      beyond that never cuts propagation off. */
  lemma PropagationSettles(edges: EdgeList)
    requires PositiveWeights(edges)
    ensures exists k: nat :: k <= Power(|Nodes(edges)|, |Nodes(edges)|) && Settled(edges, k)
  {
    var k := SettlesFrom(edges, 0);
    var all := AllLabels(Nodes(edges), Nodes(edges));
    SubsetSize(Better(edges, Sweeps(edges, 0)), all);
    AllLabelsCount(Nodes(edges), Nodes(edges));
    assert k <= Power(|Nodes(edges)|, |Nodes(edges)|) && Settled(edges, k);
  }
}
