/** `detect_communities` (backend/graph_analytics.py:165-216): tag propagation that overwrites labels
    in place, so a node already sees the new labels of the smaller nodes of the same sweep. */
module Communities {
  import opened GraphModel
  import opened RealSums
  import opened Sets
  import Components

  type Weights = map<int, real>

  type Labels = map<int, int>

  // ── The weighted adjacency ──────────────────────────────────────────────

  /** `float(weight or 1.0)`: a missing or zero weight counts as one. */
  function WeightOf(e: Edge): real {
    if e.weight.None? || e.weight.value == 0.0 then 1.0 else e.weight.value
  }

  function AddWeight(w: Weights, v: int, x: real): Weights {
    w[v := (if v in w then w[v] else 0.0) + x]
  }

  /** Total weight from `n` to each neighbour; a self-loop counts twice. */
  function Weighted(edges: EdgeList, n: int): Weights {
    if edges == [] then map[]
    else
      var before, last := edges[..|edges| - 1], edges[|edges| - 1];
      var w := Weighted(before, n);
      var w' := if last.source == n then AddWeight(w, last.target, WeightOf(last)) else w;
      if last.target == n then AddWeight(w', last.source, WeightOf(last)) else w'
  }

  lemma {:induction false} WeightedKeysAreJoined(edges: EdgeList, n: int)
    ensures Weighted(edges, n).Keys == Components.Beside(edges, n)
  {
    if edges != [] {
      WeightedKeysAreJoined(edges[..|edges| - 1], n);
    }
  }

  function WeightsOf(adj: map<int, Weights>, n: int): Weights {
    if n in adj then adj[n] else map[]
  }

  method BuildWeights(edges: EdgeList) returns (adj: map<int, Weights>, nodes: set<int>)
    ensures forall n :: WeightsOf(adj, n) == Weighted(edges, n)
    ensures nodes == Nodes(edges)
  {
    adj, nodes := map[], {};
    for i := 0 to |edges|
      invariant forall n :: WeightsOf(adj, n) == Weighted(edges[..i], n)
      invariant nodes == Nodes(edges[..i])
    {
      var e := edges[i];
      assert edges[..i + 1][..i] == edges[..i];
      var w := WeightOf(e);
      adj := adj[e.source := AddWeight(WeightsOf(adj, e.source), e.target, w)];
      adj := adj[e.target := AddWeight(WeightsOf(adj, e.target), e.source, w)];
      nodes := nodes + {e.source, e.target};
    }
    assert edges[..|edges|] == edges;
  }

  // ── One node's choice ───────────────────────────────────────────────────

  /** The weight of neighbour `v` if it bears `tag`. */
  function Bearing(w: Weights, labels: Labels, tag: int): int -> real {
    v => if v in w && v in labels && labels[v] == tag then w[v] else 0.0
  }

  ghost function Score(w: Weights, labels: Labels, tag: int): real {
    SumSet(w.Keys, Bearing(w, labels, tag))
  }

  ghost predicate Borne(w: Weights, labels: Labels, tag: int) {
    exists v :: v in w && v in labels && labels[v] == tag
  }

  /** `a` scores more than `b`, or as much with a smaller label. */
  ghost predicate Outranks(w: Weights, labels: Labels, a: int, b: int) {
    Score(w, labels, b) < Score(w, labels, a) || (Score(w, labels, b) == Score(w, labels, a) && a <= b)
  }

  /** The smallest of the heaviest labels among the neighbours. */
  ghost predicate IsBest(w: Weights, labels: Labels, b: int) {
    Borne(w, labels, b) && forall l :: Borne(w, labels, l) ==> Outranks(w, labels, b, l)
  }

  ghost predicate IsTop(w: Weights, labels: Labels, some: set<int>, b: int) {
    b in some && forall l :: l in some ==> Outranks(w, labels, b, l)
  }

  lemma {:induction false} TopExists(w: Weights, labels: Labels, some: set<int>)
    requires some != {}
    ensures exists b :: IsTop(w, labels, some, b)
  {
    hide Score;
    SomeMember(some);
    var x :| x in some;
    if some - {x} == {} {
      assert some == {x};
      assert IsTop(w, labels, some, x);
    } else {
      TopExists(w, labels, some - {x});
      var b :| IsTop(w, labels, some - {x}, b);
      assert forall l :: l in some ==> l == x || l in some - {x};
      assert IsTop(w, labels, some, if Outranks(w, labels, b, x) then b else x);
    }
  }

  lemma BestExists(w: Weights, labels: Labels)
    requires w != map[] && w.Keys <= labels.Keys
    ensures exists b :: IsBest(w, labels, b)
  {
    hide Outranks;
    var borne := set v | v in w :: labels[v];
    forall l ensures Borne(w, labels, l) <==> l in borne {}
    SomeMember(w.Keys);
    var v :| v in w;
    assert labels[v] in borne;
    TopExists(w, labels, borne);
    var b :| IsTop(w, labels, borne, b);
    assert IsBest(w, labels, b);
  }

  ghost function Best(w: Weights, labels: Labels): (b: int)
    requires w != map[] && w.Keys <= labels.Keys
    ensures IsBest(w, labels, b)
  {
    BestExists(w, labels);
    var b :| IsBest(w, labels, b);
    b
  }

  ghost predicate Labelled(edges: EdgeList, labels: Labels) {
    labels.Keys == Nodes(edges)
  }

  lemma NeighboursAreLabelled(edges: EdgeList, labels: Labels, n: int)
    requires Labelled(edges, labels)
    ensures Weighted(edges, n).Keys <= labels.Keys
  {
    WeightedKeysAreJoined(edges, n);
    Components.BesideIsJoined(edges, n);
    var beside := Components.Beside(edges, n);
    forall v | v in beside ensures v in Nodes(edges) {
      Components.JoinedAreNodes(edges, n, v);
    }
  }

  ghost function Relabel(edges: EdgeList, labels: Labels, n: int): (next: Labels)
    requires Labelled(edges, labels) && n in labels
    ensures Labelled(edges, next)
  {
    NeighboursAreLabelled(edges, labels, n);
    var w := Weighted(edges, n);
    if w == map[] then labels
    else
      assert labels.Keys + {n} == labels.Keys;
      labels[n := Best(w, labels)]
  }

  /** One pass over the first nodes of the order, in place. */
  ghost function Sweep(edges: EdgeList, labels: Labels, order: seq<int>): (next: Labels)
    requires Labelled(edges, labels) && forall n :: n in order ==> n in labels
    ensures Labelled(edges, next)
  {
    if order == [] then labels
    else
      var before := Sweep(edges, labels, order[..|order| - 1]);
      Relabel(edges, before, order[|order| - 1])
  }

  ghost function SweepAll(edges: EdgeList, labels: Labels): (next: Labels)
    requires Labelled(edges, labels)
    ensures Labelled(edges, next)
  {
    AscendingIsSorted(Nodes(edges));
    Sweep(edges, labels, Ascending(Nodes(edges)))
  }

  ghost function Sweeps(edges: EdgeList, k: nat): (labels: Labels)
    ensures Labelled(edges, labels)
  {
    if k == 0 then map n | n in Nodes(edges) :: n else SweepAll(edges, Sweeps(edges, k - 1))
  }

  // ── The loops ───────────────────────────────────────────────────────────

  /** The inner loop that adds up `scores`, and the choice of the smallest top-scoring tag. */
  method ChooseLabel(w: Weights, labels: Labels) returns (best: int)
    requires w != map[] && w.Keys <= labels.Keys
    ensures best == Best(w, labels)
  {
    hide Borne, Score;
    NoneBorne(labels);
    var scores: map<int, real> := map[];
    var rest := w.Keys;
    ghost var done: Weights := map[];
    while rest != {}
      invariant rest <= w.Keys
      invariant done == map v | v in w && v !in rest :: w[v]
      invariant forall l :: l in scores <==> Borne(done, labels, l)
      invariant forall l :: l in scores ==> scores[l] == Score(done, labels, l)
      decreases rest
    {
      SomeMember(rest);
      var v :| v in rest;
      var tag := labels[v];
      AddNeighbourScore(done, labels, v, w[v]);
      scores := scores[tag := (if tag in scores then scores[tag] else 0.0) + w[v]];
      done, rest := done[v := w[v]], rest - {v};
    }
    assert done == w;
    SomeBorne(w, labels);
    best := TopLabel(scores);
    assert forall l :: Borne(w, labels, l) ==> Outranks(w, labels, best, l);
  }

  lemma SomeBorne(w: Weights, labels: Labels)
    requires w != map[] && w.Keys <= labels.Keys
    ensures exists l :: Borne(w, labels, l)
  {
    SomeMember(w.Keys);
    var v :| v in w;
    assert Borne(w, labels, labels[v]);
  }

  lemma AddNeighbourScore(w: Weights, labels: Labels, v: int, x: real)
    requires v !in w && v in labels
    ensures forall l :: Borne(w[v := x], labels, l) <==> Borne(w, labels, l) || l == labels[v]
    ensures forall l :: Score(w[v := x], labels, l) == Score(w, labels, l) + (if l == labels[v] then x else 0.0)
    ensures !Borne(w, labels, labels[v]) ==> Score(w, labels, labels[v]) == 0.0
  {
    hide Score, Borne;
    forall l {
      AddToScore(w, labels, v, x, l);
    }
  }

  lemma AddToScore(w: Weights, labels: Labels, v: int, x: real, l: int)
    requires v !in w && v in labels
    ensures Borne(w[v := x], labels, l) <==> Borne(w, labels, l) || l == labels[v]
    ensures Score(w[v := x], labels, l) == Score(w, labels, l) + (if l == labels[v] then x else 0.0)
    ensures !Borne(w, labels, l) ==> Score(w, labels, l) == 0.0
  {
    var w' := w[v := x];
    assert w'[v] == x;
    if Borne(w, labels, l) {
      var u :| u in w && u in labels && labels[u] == l;
      assert u in w';
    }
    ScoreWithout(w, labels, l);
    hide Borne, SumSet;
    SumSetRemove(w'.Keys, v, Bearing(w', labels, l));
    assert w'.Keys - {v} == w.Keys;
    SumSetCong(w.Keys, Bearing(w', labels, l), Bearing(w, labels, l));
  }

  lemma NoneBorne(labels: Labels)
    ensures forall l :: !Borne(map[], labels, l)
  {}

  lemma ScoreWithout(w: Weights, labels: Labels, l: int)
    ensures !Borne(w, labels, l) ==> Score(w, labels, l) == 0.0
  {
    hide Times, SumSet;
    if !Borne(w, labels, l) {
      assert forall v :: v in w.Keys ==> Bearing(w, labels, l)(v) == 0.0;
      SumSetConst(w.Keys, 0.0, Bearing(w, labels, l));
      TimesZero(|w.Keys| as real);
    }
  }

  lemma TimesZero(a: real)
    ensures Times(a, 0.0) == 0.0
  {}

  /** `min(tag for tag, score in scores.items() if score == max(scores.values()))`. */
  method TopLabel(scores: map<int, real>) returns (best: int)
    requires scores != map[]
    ensures best in scores
    ensures forall l :: l in scores ==> scores[l] < scores[best] || (scores[l] == scores[best] && best <= l)
  {
    SomeMember(scores.Keys);
    best :| best in scores;
    var rest := scores.Keys - {best};
    while rest != {}
      invariant best in scores && rest <= scores.Keys
      invariant forall l :: l in scores && l !in rest ==>
        scores[l] < scores[best] || (scores[l] == scores[best] && best <= l)
      decreases rest
    {
      SomeMember(rest);
      var l :| l in rest;
      if scores[l] > scores[best] || (scores[l] == scores[best] && l < best) {
        best := l;
      }
      rest := rest - {l};
    }
  }

  method RelabelNode(ghost edges: EdgeList, w: Weights, node: int, labels0: Labels)
      returns (labels: Labels, changed: bool)
    requires w == Weighted(edges, node) && Labelled(edges, labels0) && node in labels0
    ensures labels == Relabel(edges, labels0, node)
    ensures forall n :: n in labels0 && n != node ==> n in labels && labels[n] == labels0[n]
    ensures changed <==> labels[node] != labels0[node]
    ensures !changed ==> labels == labels0
  {
    hide Nodes, Weighted, IsBest;
    NeighboursAreLabelled(edges, labels0, node);
    labels, changed := labels0, false;
    if w != map[] {
      var best := ChooseLabel(w, labels);
      changed := best != labels[node];
      assert !changed ==> labels[node := best] == labels;
      labels := labels[node := best];
    }
  }

  ghost predicate Moved(labels0: Labels, labels: Labels, some: seq<int>) {
    exists n :: n in some && n in labels0 && n in labels && labels[n] != labels0[n]
  }

  /** One sweep; `changed` says whether it was not a no-op. */
  method RunSweep(ghost edges: EdgeList, adj: map<int, Weights>, order: seq<int>, labels0: Labels)
      returns (labels: Labels, changed: bool)
    requires forall n :: WeightsOf(adj, n) == Weighted(edges, n)
    requires Labelled(edges, labels0) && order == Ascending(Nodes(edges))
    ensures labels == SweepAll(edges, labels0)
    ensures changed <==> labels != labels0
  {
    hide Nodes, Weighted, Relabel, Ascending;
    AscendingIsSorted(Nodes(edges));
    labels, changed := labels0, false;
    for i := 0 to |order|
      invariant labels == Sweep(edges, labels0, order[..i])
      invariant forall n :: n in labels && n !in order[..i] ==> labels[n] == labels0[n]
      invariant !changed ==> labels == labels0
      invariant changed ==> Moved(labels0, labels, order[..i])
    {
      var node := order[i];
      assert order[..i + 1] == order[..i] + [node];
      assert order[..i + 1][..i] == order[..i];
      assert node !in order[..i];
      ghost var before := labels;
      var moved;
      labels, moved := RelabelNode(edges, WeightsOf(adj, node), node, labels);
      if changed {
        ghost var n :| n in order[..i] && n in labels0 && n in before && before[n] != labels0[n];
        assert n in order[..i + 1] && labels[n] != labels0[n];
      } else if moved {
        assert node in order[..i + 1] && labels[node] != labels0[node];
      }
      changed := changed || moved;
    }
    assert order[..|order|] == order;
  }

  ghost predicate UsedBefore(ids: map<int, nat>, c: nat, u: int) {
    exists v :: v in ids && v < u && ids[v] == c
  }

  /** Same label, same id; ids count the labels in order of first appearance. */
  ghost predicate Numbered(nodes: set<int>, labels: Labels, ids: map<int, nat>) {
    && ids.Keys == nodes == labels.Keys
    && (forall u, v :: u in nodes && v in nodes ==> (ids[u] == ids[v] <==> labels[u] == labels[v]))
    && (forall u, c: nat :: u in nodes && c < ids[u] ==> UsedBefore(ids, c, u))
  }

  ghost predicate UsedBy(ids: map<int, nat>, c: nat) {
    exists v :: v in ids && ids[v] == c
  }

  ghost predicate Numbering(ids: map<int, nat>, labels: Labels, idOf: map<int, nat>, count: nat) {
    && (forall n :: n in ids ==> n in labels && labels[n] in idOf && ids[n] == idOf[labels[n]])
    && (forall a, b :: a in idOf && b in idOf && a != b ==> idOf[a] != idOf[b])
    && (forall a :: a in idOf ==> idOf[a] < count)
    && (forall c: nat :: c < count ==> UsedBy(ids, c))
    && (forall u, c: nat :: u in ids && c < ids[u] ==> UsedBefore(ids, c, u))
  }

  /** The final loop: `label_map` hands out the next id to each label it has not met. */
  method Normalise(nodes: set<int>, order: seq<int>, labels: Labels) returns (ids: map<int, nat>)
    requires labels.Keys == nodes && order == Ascending(nodes)
    ensures Numbered(nodes, labels, ids)
  {
    hide Ascending, Numbering;
    AscendingIsSorted(nodes);
    ids := map[];
    var idOf: map<int, nat> := map[];
    assert Numbering(ids, labels, idOf, 0) by {
      NothingNumbered(labels);
    }
    for i := 0 to |order|
      invariant forall n :: n in ids <==> n in order[..i]
      invariant Numbering(ids, labels, idOf, |idOf|)
    {
      var node := order[i];
      assert order[..i + 1] == order[..i] + [node];
      assert forall n :: n in ids ==> n < node;
      NumberingStep(ids, labels, idOf, |idOf|, node);
      if labels[node] !in idOf {
        idOf := idOf[labels[node] := |idOf|];
      }
      ids := ids[node := idOf[labels[node]]];
    }
    assert order[..|order|] == order;
    assert forall n :: n in ids <==> n in nodes;
    NumberingDone(ids, labels, idOf, |idOf|);
  }

  lemma NothingNumbered(labels: Labels)
    ensures Numbering(map[], labels, map[], 0)
  {}

  lemma NumberingDone(ids: map<int, nat>, labels: Labels, idOf: map<int, nat>, count: nat)
    requires Numbering(ids, labels, idOf, count) && ids.Keys == labels.Keys
    ensures Numbered(labels.Keys, labels, ids)
  {}

  lemma NumberingStep(was: map<int, nat>, labels: Labels, idOf: map<int, nat>, count: nat, node: int)
    requires Numbering(was, labels, idOf, count) && node in labels
    requires forall n :: n in was ==> n < node
    ensures labels[node] in idOf ==>
      Numbering(was[node := idOf[labels[node]]], labels, idOf, count)
    ensures labels[node] !in idOf ==>
      Numbering(was[node := count], labels, idOf[labels[node] := count], count + 1)
  {
    var tag := labels[node];
    var c := if tag in idOf then idOf[tag] else count;
    assert c <= count;
    var ids := was[node := c];
    UsedGrows(was, ids, node);
    assert UsedBy(ids, ids[node]);
    forall u, k: nat | u in ids && k < ids[u] ensures UsedBefore(ids, k, u) {
      if u == node {
        assert UsedBy(was, k);
      } else {
        assert UsedBefore(was, k, u);
      }
    }
    forall k: nat | k < count ensures UsedBy(ids, k) {
      assert UsedBy(was, k);
    }
  }

  lemma UsedGrows(was: map<int, nat>, ids: map<int, nat>, node: int)
    requires node in ids && ids == was[node := ids[node]]
    requires forall n :: n in was ==> n < node
    ensures forall c :: UsedBy(was, c) ==> UsedBy(ids, c) && UsedBefore(ids, c, node)
    ensures forall c, u :: u in was && UsedBefore(was, c, u) ==> UsedBefore(ids, c, u)
  {
    forall c | UsedBy(was, c) ensures UsedBy(ids, c) && UsedBefore(ids, c, node) {
      var v :| v in was && was[v] == c;
      assert v in ids && ids[v] == c;
    }
    forall c, u | u in was && UsedBefore(was, c, u) ensures UsedBefore(ids, c, u) {
      var v :| v in was && v < u && was[v] == c;
      assert v in ids && ids[v] == c;
    }
  }

  /** `k` sweeps, stopping early only where a further sweep changes nothing. */
  ghost predicate SettlesAfter(edges: EdgeList, maxIter: nat, k: nat) {
    && k <= maxIter
    && (k == maxIter || SweepAll(edges, Sweeps(edges, k)) == Sweeps(edges, k))
  }

  method DetectCommunities(edges: EdgeList, maxIter: nat) returns (ids: map<int, nat>)
    ensures exists k :: SettlesAfter(edges, maxIter, k) && Numbered(Nodes(edges), Sweeps(edges, k), ids)
    ensures forall u, v :: u in ids && v in ids && ids[u] == ids[v] ==> Components.Connected(edges, u, v)
  {
    hide Nodes, Weighted, SweepAll, Components.Connected, Numbered;
    var adj, nodes := BuildWeights(edges);
    var order := Sorted(nodes);
    var labels: Labels := map n | n in nodes :: n;
    var i := 0;
    var changed := true;
    while i < maxIter && changed
      invariant i <= maxIter && labels == Sweeps(edges, i)
      invariant !changed ==> SweepAll(edges, labels) == labels
    {
      ghost var before := labels;
      labels, changed := RunSweep(edges, adj, order, labels);
      i := i + 1;
    }
    assert SettlesAfter(edges, maxIter, i);
    ids := Normalise(nodes, order, labels);
    CommunitiesRefineComponents(edges, i, ids);
  }

  // ── Communities refine components ───────────────────────────────────────

  ghost predicate Anchored(edges: EdgeList, labels: Labels) {
    && Labelled(edges, labels)
    && forall n :: n in labels ==> labels[n] in Nodes(edges) && Components.Connected(edges, n, labels[n])
  }

  lemma BestIsANeighboursLabel(edges: EdgeList, labels: Labels, n: int) returns (v: int)
    requires Labelled(edges, labels) && Weighted(edges, n) != map[]
    requires Weighted(edges, n).Keys <= labels.Keys
    ensures v in labels && Components.Joined(edges, n, v) && labels[v] == Best(Weighted(edges, n), labels)
  {
    hide Nodes, Outranks, Weighted;
    var w := Weighted(edges, n);
    var b := Best(w, labels);
    assert Borne(w, labels, b);
    v :| v in w && v in labels && labels[v] == b;
    WeightedKeysAreJoined(edges, n);
    Components.BesideIsJoined(edges, n);
  }

  lemma AnchorKept(edges: EdgeList, labels: Labels, n: int, b: int)
    requires Anchored(edges, labels) && n in labels && b in Nodes(edges) && Components.Connected(edges, n, b)
    ensures Anchored(edges, labels[n := b])
  {
    hide Nodes, Components.Connected;
    assert labels[n := b].Keys == labels.Keys;
  }

  lemma RelabelKeepsAnchors(edges: EdgeList, labels: Labels, n: int)
    requires Anchored(edges, labels) && n in labels
    ensures Anchored(edges, Relabel(edges, labels, n))
  {
    hide Nodes, Components.Connected, Components.Joined, Weighted, IsBest, Best, Anchored;
    assert Labelled(edges, labels) by {
      AnchoredIsLabelled(edges, labels);
    }
    NeighboursAreLabelled(edges, labels, n);
    if Weighted(edges, n) != map[] {
      var v := BestIsANeighboursLabel(edges, labels, n);
      AnchoredAt(edges, labels, v);
      Components.ConnectedRefl(edges, n);
      Components.ConnectedStep(edges, n, n, v);
      Components.ConnectedTrans(edges, n, v, labels[v]);
      AnchorKept(edges, labels, n, labels[v]);
    }
    assert Anchored(edges, Relabel(edges, labels, n));
  }

  lemma AnchoredIsLabelled(edges: EdgeList, labels: Labels)
    requires Anchored(edges, labels)
    ensures Labelled(edges, labels)
  {}

  lemma AnchoredAt(edges: EdgeList, labels: Labels, v: int)
    requires Anchored(edges, labels) && v in labels
    ensures labels[v] in Nodes(edges) && Components.Connected(edges, v, labels[v])
  {}

  lemma SweepNext(edges: EdgeList, labels: Labels, order: seq<int>)
    requires Labelled(edges, labels) && order != [] && forall n :: n in order ==> n in labels
    ensures var before, last := order[..|order| - 1], order[|order| - 1];
            && (forall n :: n in before ==> n in labels)
            && last in Sweep(edges, labels, before)
            && Sweep(edges, labels, order) == Relabel(edges, Sweep(edges, labels, before), last)
  {
    hide Nodes, Relabel;
    var before, last := order[..|order| - 1], order[|order| - 1];
    assert last in order;
    SameBearers(edges, labels, Sweep(edges, labels, before), last);
  }

  lemma SameBearers(edges: EdgeList, a: Labels, b: Labels, n: int)
    requires Labelled(edges, a) && Labelled(edges, b) && n in a
    ensures n in b
  {
    hide Nodes;
    assert a.Keys == b.Keys;
  }

  lemma SweepNothing(edges: EdgeList, labels: Labels, order: seq<int>)
    requires Labelled(edges, labels) && order == []
    ensures Sweep(edges, labels, order) == labels
  {}

  lemma {:induction false} SweepKeepsAnchors(edges: EdgeList, labels: Labels, order: seq<int>)
    requires Anchored(edges, labels) && forall n :: n in order ==> n in labels
    ensures Labelled(edges, labels) && Anchored(edges, Sweep(edges, labels, order))
  {
    hide *;
    AnchoredIsLabelled(edges, labels);
    if order == [] {
      SweepNothing(edges, labels, order);
    } else {
      SweepNext(edges, labels, order);
      SweepKeepsAnchors(edges, labels, order[..|order| - 1]);
      RelabelKeepsAnchors(edges, Sweep(edges, labels, order[..|order| - 1]), order[|order| - 1]);
    }
    assert Anchored(edges, Sweep(edges, labels, order));
  }

  lemma SweepsStart(edges: EdgeList)
    ensures Anchored(edges, Sweeps(edges, 0))
  {
    hide Nodes, Components.Connected;
    forall n | n in Nodes(edges) ensures Components.Connected(edges, n, n) {
      Components.ConnectedRefl(edges, n);
    }
  }

  lemma SweepsNext(edges: EdgeList, k: nat)
    ensures forall n :: n in Ascending(Nodes(edges)) ==> n in Sweeps(edges, k)
    ensures Labelled(edges, Sweeps(edges, k))
    ensures Sweeps(edges, k + 1) == Sweep(edges, Sweeps(edges, k), Ascending(Nodes(edges)))
  {
    hide Nodes, Ascending, Sweep;
    AscendingIsSorted(Nodes(edges));
    assert Labelled(edges, Sweeps(edges, k));
  }

  /** After any number of sweeps every label is a node of the bearer's own component. */
  lemma {:induction false} LabelsStayInComponent(edges: EdgeList, k: nat)
    ensures Anchored(edges, Sweeps(edges, k))
  {
    hide *;
    if k == 0 {
      SweepsStart(edges);
    } else {
      LabelsStayInComponent(edges, k - 1);
      SweepsNext(edges, k - 1);
      SweepKeepsAnchors(edges, Sweeps(edges, k - 1), Ascending(Nodes(edges)));
    }
    assert Anchored(edges, Sweeps(edges, k));
  }

  lemma CommunitiesRefineComponents(edges: EdgeList, k: nat, ids: map<int, nat>)
    requires Numbered(Nodes(edges), Sweeps(edges, k), ids)
    ensures forall u, v :: u in ids && v in ids && ids[u] == ids[v] ==> Components.Connected(edges, u, v)
  {
    hide Nodes, Components.Connected, Sweeps;
    LabelsStayInComponent(edges, k);
    var labels := Sweeps(edges, k);
    forall u, v | u in ids && v in ids && ids[u] == ids[v] ensures Components.Connected(edges, u, v) {
      Components.ConnectedSym(edges, v, labels[v]);
      Components.ConnectedTrans(edges, u, labels[u], v);
    }
  }
}
