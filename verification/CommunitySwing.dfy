/** Label propagation with weights below zero (`detect_communities`, backend/graph_analytics.py:188-207) need not settle:
    on the graph below every sweep changes every label. */
module CommunitySwing {
  import opened Communities
  import opened CommunityChains
  import opened CommunitySettling
  import opened GraphModel
  import opened RealSums
  import opened Sets
  import opened Wrappers

  const A := Edge(0, 1, "cites", Some(-1.0))
  const B := Edge(0, 2, "cites", Some(-2.0))
  const C := Edge(1, 2, "cites", Some(1.0))
  const D := Edge(2, 2, "cites", Some(-2.0))

  const SWING: EdgeList := [A, B, C, D]

  lemma SwingPrefixes()
    ensures SWING[..3] == [A, B, C] && [A, B, C][..2] == [A, B] && [A, B][..1] == [A] && [A][..0] == []
  {}

  lemma SwingNodes(n: int)
    ensures n in Nodes(SWING) <==> 0 <= n < 3
  {
    SwingPrefixes();
    assert n in Nodes([A]) <==> n == 0 || n == 1;
    assert n in Nodes([A, B]) <==> 0 <= n < 3;
    assert n in Nodes([A, B, C]) <==> 0 <= n < 3;
  }

  ghost predicate Weighs(w: Weights, v: int, x: real) {
    v in w && w[v] == x
  }

  lemma WeightsOfFirst()
    ensures var w := Weighted(SWING, 0);
            (forall v :: v in w <==> v == 1 || v == 2) && Weighs(w, 1, -1.0) && Weighs(w, 2, -2.0)
  {
    SwingPrefixes();
    assert Weighted([A], 0) == AddWeight(map[], 1, -1.0);
    assert Weighted([A, B], 0) == AddWeight(Weighted([A], 0), 2, -2.0);
    assert Weighted([A, B, C], 0) == Weighted([A, B], 0);
    assert Weighted(SWING, 0) == Weighted([A, B, C], 0);
  }

  lemma WeightsOfSecond()
    ensures var w := Weighted(SWING, 1);
            (forall v :: v in w <==> v == 0 || v == 2) && Weighs(w, 0, -1.0) && Weighs(w, 2, 1.0)
  {
    SwingPrefixes();
    assert Weighted([A], 1) == AddWeight(map[], 0, -1.0);
    assert Weighted([A, B], 1) == Weighted([A], 1);
    assert Weighted([A, B, C], 1) == AddWeight(Weighted([A, B], 1), 2, 1.0);
    assert Weighted(SWING, 1) == Weighted([A, B, C], 1);
  }

  lemma WeightsOfThird()
    ensures var w := Weighted(SWING, 2);
            (forall v :: v in w <==> 0 <= v < 3) && Weighs(w, 0, -2.0) && Weighs(w, 1, 1.0) && Weighs(w, 2, -4.0)
  {
    SwingPrefixes();
    assert Weighted([A], 2) == map[];
    assert Weighted([A, B], 2) == AddWeight(map[], 0, -2.0);
    assert Weighted([A, B, C], 2) == AddWeight(Weighted([A, B], 2), 1, 1.0);
    assert Weighted(SWING, 2) == AddWeight(AddWeight(Weighted([A, B, C], 2), 2, -2.0), 2, -2.0);
  }

  function Three(a: int, b: int, c: int): Labels {
    map[0 := a, 1 := b, 2 := c]
  }

  lemma ThreeIsLabelling(a: int, b: int, c: int)
    ensures Labelled(SWING, Three(a, b, c))
  {
    forall n ensures n in Three(a, b, c).Keys <==> n in Nodes(SWING) {
      SwingNodes(n);
    }
    assert Three(a, b, c).Keys == Nodes(SWING);
  }

  lemma ScoreOfThree(w: Weights, labels: Labels, tag: int)
    requires forall v :: v in w <==> 0 <= v < 3
    requires 0 in labels && 1 in labels && 2 in labels
    ensures Score(w, labels, tag) == (if labels[0] == tag then w[0] else 0.0)
                                     + (if labels[1] == tag then w[1] else 0.0)
                                     + (if labels[2] == tag then w[2] else 0.0)
  {
    var f := Bearing(w, labels, tag);
    assert forall v :: v in w.Keys <==> v == 0 || v == 1 || v == 2;
    assert w.Keys == {0, 1, 2};
    SumSetRemove({0, 1, 2}, 0, f);
    assert {0, 1, 2} - {0} == {1, 2};
    SumSetRemove({1, 2}, 1, f);
    assert {1, 2} - {1} == {2};
    SumSetRemove({2}, 2, f);
    assert {2} - {2} == {};
  }

  /** The neighbours in `w` bear only the labels `light` and `heavy`, and `heavy` scores more. */
  ghost predicate Outweighs(w: Weights, labels: Labels, light: int, heavy: int) {
    && (forall v :: v in w ==> v in labels && (labels[v] == light || labels[v] == heavy))
    && Borne(w, labels, heavy) && Score(w, labels, light) < Score(w, labels, heavy)
  }

  lemma HeavierIsBest(w: Weights, labels: Labels, light: int, heavy: int)
    requires Outweighs(w, labels, light, heavy) && w != map[] && w.Keys <= labels.Keys
    ensures Best(w, labels) == heavy
  {
    hide Score;
    var b := Best(w, labels);
    var v :| v in w && v in labels && labels[v] == b;
    assert Outranks(w, labels, b, heavy);
  }

  lemma SomeNeighbour(w: Weights, labels: Labels, tag: int)
    requires Borne(w, labels, tag)
    ensures w != map[]
  {}

  lemma RelabelsTo(labels: Labels, n: int, light: int, heavy: int)
    requires Labelled(SWING, labels) && n in labels && Outweighs(Weighted(SWING, n), labels, light, heavy)
    ensures Relabel(SWING, labels, n) == labels[n := heavy]
  {
    hide Weighted, Score, Nodes, Best, Borne, IsBest;
    NeighboursAreLabelled(SWING, labels, n);
    SomeNeighbour(Weighted(SWING, n), labels, heavy);
    HeavierIsBest(Weighted(SWING, n), labels, light, heavy);
  }

  lemma FirstSwings(x: int, a: int, b: int)
    requires a != b
    ensures Labelled(SWING, Three(x, b, a)) && Relabel(SWING, Three(x, b, a), 0) == Three(b, b, a)
  {
    ThreeIsLabelling(x, b, a);
    WeightsOfFirst();
    var w, labels := Weighted(SWING, 0), Three(x, b, a);
    hide Weighted, Nodes;
    assert forall v :: v in w.Keys <==> v == 1 || v == 2;
    assert w.Keys == {1, 2};
    ScoreOfTwo(w, labels, 1, 2, a);
    ScoreOfTwo(w, labels, 1, 2, b);
    assert Borne(w, labels, b) by {
      assert 1 in w && labels[1] == b;
    }
    RelabelsTo(labels, 0, a, b);
    SameMap(labels[0 := b], Three(b, b, a));
  }

  lemma SecondSwings(a: int, b: int)
    requires a != b
    ensures Labelled(SWING, Three(b, b, a)) && Relabel(SWING, Three(b, b, a), 1) == Three(b, a, a)
  {
    ThreeIsLabelling(b, b, a);
    WeightsOfSecond();
    var w, labels := Weighted(SWING, 1), Three(b, b, a);
    hide Weighted, Nodes;
    assert forall v :: v in w.Keys <==> v == 0 || v == 2;
    assert w.Keys == {0, 2};
    ScoreOfTwo(w, labels, 0, 2, a);
    ScoreOfTwo(w, labels, 0, 2, b);
    assert Borne(w, labels, a) by {
      assert 2 in w && labels[2] == a;
    }
    RelabelsTo(labels, 1, b, a);
    SameMap(labels[1 := a], Three(b, a, a));
  }

  lemma ThirdSwings(a: int, b: int)
    requires a != b
    ensures Labelled(SWING, Three(b, a, a)) && Relabel(SWING, Three(b, a, a), 2) == Three(b, a, b)
  {
    ThreeIsLabelling(b, a, a);
    WeightsOfThird();
    var w, labels := Weighted(SWING, 2), Three(b, a, a);
    hide Weighted, Nodes;
    ScoreOfThree(w, labels, a);
    ScoreOfThree(w, labels, b);
    assert Borne(w, labels, b) by {
      assert 0 in w && labels[0] == b;
    }
    RelabelsTo(labels, 2, a, b);
    SameMap(labels[2 := b], Three(b, a, b));
  }

  ghost function State(x: int, a: int, b: int): nat -> Labels {
    j => Three(if j == 0 then x else b, if j <= 1 then b else a, if j <= 2 then a else b)
  }

  /** A sweep passes on the labels of the last two nodes in exchange. */
  lemma SweepSwings(x: int, a: int, b: int)
    requires a != b
    ensures Labelled(SWING, Three(x, b, a)) && SweepAll(SWING, Three(x, b, a)) == Three(b, a, b)
  {
    FirstSwings(x, a, b);
    SecondSwings(a, b);
    ThirdSwings(a, b);
    forall n ensures n in Nodes(SWING) <==> 0 <= n < 3 {
      SwingNodes(n);
    }
    AscendingRange(Nodes(SWING), 0, 3);
    assert Upto(0) + Ascending(Nodes(SWING)) == Ascending(Nodes(SWING));
    UptoHolds(3);
    hide Relabel, Nodes, Sweep, Labelled, Ascending, Upto;
    forall i: nat | i < 3
      ensures Labelled(SWING, State(x, a, b)(i)) && i in State(x, a, b)(i)
      ensures Relabel(SWING, State(x, a, b)(i), i) == State(x, a, b)(i + 1)
    {}
    SweepThrough(SWING, State(x, a, b), 3);
  }

  lemma SwingStarts()
    ensures Sweeps(SWING, 0) == Three(0, 1, 2)
  {
    forall n ensures n in Nodes(SWING) <==> 0 <= n < 3 {
      SwingNodes(n);
    }
    SameMap(Sweeps(SWING, 0), Three(0, 1, 2));
  }

  lemma {:induction false} SweepsSwing(k: nat)
    ensures Sweeps(SWING, k + 1) == if k % 2 == 0 then Three(1, 2, 1) else Three(2, 1, 2)
  {
    hide SweepAll;
    if k == 0 {
      SwingStarts();
      SweepSwings(0, 2, 1);
    } else {
      SweepsSwing(k - 1);
      if k % 2 == 0 {
        SweepSwings(2, 2, 1);
      } else {
        SweepSwings(1, 1, 2);
      }
    }
  }

  /** No number of sweeps settles this graph: with weights below zero propagation can swing for ever. */
  lemma NegativeWeightsNeverSettle(k: nat)
    ensures !Settled(SWING, k)
  {
    SweepsSwing(k);
    if k > 0 {
      SweepsSwing(k - 1);
    }
    hide SweepAll;
    assert Three(1, 2, 1)[0] != Three(2, 1, 2)[0];
    assert k == 0 ==> 0 in Sweeps(SWING, 0) && Sweeps(SWING, 0)[0] == 0 by {
      SwingNodes(0);
    }
  }
}
