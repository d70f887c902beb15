/** How many sweeps label propagation needs (`detect_communities`, backend/graph_analytics.py:188-207): on a chain whose
    weights grow with the node numbers, each sweep moves every label by one node only. */
module CommunityChains {
  import opened Communities
  import opened CommunitySettling
  import opened GraphModel
  import opened RealSums
  import opened Sets
  import opened Wrappers

  /** Nodes 0 to m; the edge between n - 1 and n weighs n. */
  function Chain(m: nat): EdgeList {
    if m == 0 then [] else Chain(m - 1) + [Edge(m - 1, m, "cites", Some(m as real))]
  }

  function Min(a: int, b: int): int {
    if a <= b then a else b
  }

  function Max(a: int, b: int): int {
    if a <= b then b else a
  }

  lemma ChainBefore(m: nat)
    requires m > 0
    ensures var edges := Chain(m);
            && edges != [] && edges[..|edges| - 1] == Chain(m - 1)
            && edges[|edges| - 1] == Edge(m - 1, m, "cites", Some(m as real))
  {}

  lemma {:induction false} ChainNodes(m: nat, n: int)
    requires m > 0
    ensures n in Nodes(Chain(m)) <==> 0 <= n <= m
  {
    ChainBefore(m);
    if m > 1 {
      ChainNodes(m - 1, n);
    }
  }

  lemma {:induction false} ChainIsPositive(m: nat)
    ensures PositiveWeights(Chain(m))
  {
    if m > 0 {
      ChainIsPositive(m - 1);
    }
  }

  ghost predicate Neighbouring(m: nat, n: int, v: int) {
    0 <= n <= m && 0 <= v <= m && (v == n - 1 || v == n + 1)
  }

  lemma {:induction false} ChainWeights(m: nat, n: int, v: int)
    ensures v in Weighted(Chain(m), n) <==> Neighbouring(m, n, v)
    ensures v in Weighted(Chain(m), n) ==> Weighted(Chain(m), n)[v] == Max(n, v) as real
  {
    if m > 0 {
      ChainBefore(m);
      ChainWeights(m - 1, n, v);
      if n == m - 1 {
        ChainWeights(m - 1, n, m);
      } else if n == m {
        ChainWeights(m - 1, n, m - 1);
      }
    }
  }

  // ── One sweep ───────────────────────────────────────────────────────────

  /** The label of node `n` after `k` sweeps and the first `j` nodes of another one. */
  function Label(m: nat, k: nat, j: nat, n: int): int {
    Min(n + k + (if n < j then 1 else 0), m)
  }

  ghost function Shifted(m: nat, k: nat, j: nat): Labels {
    map n | 0 <= n <= m :: Label(m, k, j, n)
  }

  lemma SameMap<K(!new), V>(a: map<K, V>, b: map<K, V>)
    requires forall k :: k in a ==> k in b && a[k] == b[k]
    requires forall k :: k in b ==> k in a
    ensures a == b
  {
    assert a == b;
  }

  /** The last step of a sweep is the first of the next one. */
  lemma SweepEnds(m: nat, k: nat)
    ensures Shifted(m, k, m + 1) == Shifted(m, k + 1, 0)
  {
    SameMap(Shifted(m, k, m + 1), Shifted(m, k + 1, 0));
  }

  lemma ShiftedKeys(m: nat, k: nat, j: nat)
    requires m > 0
    ensures Labelled(Chain(m), Shifted(m, k, j))
  {
    forall n ensures n in Shifted(m, k, j).Keys <==> n in Nodes(Chain(m)) {
      ChainNodes(m, n);
    }
    assert Shifted(m, k, j).Keys == Nodes(Chain(m));
  }

  /** A node inside the chain sees two labels: the edge to the larger neighbour weighs more. */
  lemma ChainScores(m: nat, k: nat, j: nat)
    requires 0 < j < m && j + k < m
    ensures var w, labels := Weighted(Chain(m), j), Shifted(m, k, j);
            Score(w, labels, j + k) == j as real && Score(w, labels, j + k + 1) == (j + 1) as real
  {
    var w, labels := Weighted(Chain(m), j), Shifted(m, k, j);
    ChainWeights(m, j, j - 1);
    ChainWeights(m, j, j + 1);
    forall v ensures v in w.Keys <==> v == j - 1 || v == j + 1 {
      ChainWeights(m, j, v);
    }
    assert w.Keys == {j - 1, j + 1};
    hide Weighted, Shifted;
    assert labels[j - 1] == j + k && labels[j + 1] == j + k + 1 by {
      ShiftedAt(m, k, j, j - 1);
      ShiftedAt(m, k, j, j + 1);
    }
    ScoreOfTwo(w, labels, j - 1, j + 1, j + k);
    ScoreOfTwo(w, labels, j - 1, j + 1, j + k + 1);
  }

  lemma ShiftedAt(m: nat, k: nat, j: nat, n: int)
    ensures n in Shifted(m, k, j) <==> 0 <= n <= m
    ensures 0 <= n <= m ==> Shifted(m, k, j)[n] == Label(m, k, j, n)
  {}

  lemma ScoreOfTwo(w: Weights, labels: Labels, a: int, b: int, tag: int)
    requires w.Keys == {a, b} && a != b && a in labels && b in labels
    ensures Score(w, labels, tag) == (if labels[a] == tag then w[a] else 0.0) + (if labels[b] == tag then w[b] else 0.0)
  {
    var f := Bearing(w, labels, tag);
    SumSetRemove({a, b}, a, f);
    assert {a, b} - {a} == {b};
    SumSetRemove({b}, b, f);
    assert {b} - {b} == {};
  }

  /** What node `j` looks at when its turn comes. */
  ghost predicate SeesNeighbours(w: Weights, labels: Labels, m: nat, k: nat, j: nat) {
    && (if j < m then j + 1 else j - 1) in w
    && forall v :: v in w ==> v in labels && Neighbouring(m, j, v) && labels[v] == Label(m, k, j, v)
  }

  lemma ChainSees(m: nat, k: nat, j: nat)
    requires 0 < m && j <= m
    ensures SeesNeighbours(Weighted(Chain(m), j), Shifted(m, k, j), m, k, j)
  {
    var w, labels := Weighted(Chain(m), j), Shifted(m, k, j);
    ChainWeights(m, j, if j < m then j + 1 else j - 1);
    hide Weighted, Shifted;
    forall v | v in w ensures v in labels && Neighbouring(m, j, v) && labels[v] == Label(m, k, j, v) {
      ChainWeights(m, j, v);
      ShiftedAt(m, k, j, v);
    }
  }

  lemma SeesSome(w: Weights, labels: Labels, m: nat, k: nat, j: nat)
    requires SeesNeighbours(w, labels, m, k, j)
    ensures w != map[] && w.Keys <= labels.Keys
  {
    forall v | v in w.Keys ensures v in labels.Keys {}
  }

  lemma BestOfSeen(w: Weights, labels: Labels, m: nat, k: nat, j: nat, b: int)
    requires j <= m && SeesNeighbours(w, labels, m, k, j) && IsBest(w, labels, b)
    requires 0 < j < m && j + k < m ==> Score(w, labels, j + k) < Score(w, labels, j + k + 1)
    ensures b == Min(j + k + 1, m)
  {
    hide Score;
    var v :| v in w && v in labels && labels[v] == b;
    assert Neighbouring(m, j, v);
    if 0 < j < m && j + k < m {
      assert Borne(w, labels, labels[j + 1]);
      assert Outranks(w, labels, b, j + k + 1);
    }
  }

  /** Each node takes the label of its larger neighbour, and the last node keeps its own. */
  lemma BestInChain(m: nat, k: nat, j: nat)
    requires 0 < m && j <= m
    ensures var w, labels := Weighted(Chain(m), j), Shifted(m, k, j);
            && w != map[] && w.Keys <= labels.Keys
            && Best(w, labels) == Min(j + k + 1, m)
  {
    hide *;
    var w, labels := Weighted(Chain(m), j), Shifted(m, k, j);
    ChainSees(m, k, j);
    SeesSome(w, labels, m, k, j);
    if 0 < j < m && j + k < m {
      ChainScores(m, k, j);
    }
    BestOfSeen(w, labels, m, k, j, Best(w, labels));
    assert w != map[] && w.Keys <= labels.Keys && Best(w, labels) == Min(j + k + 1, m);
  }

  lemma RelabelInChain(m: nat, k: nat, j: nat)
    requires 0 < m && j <= m
    ensures Labelled(Chain(m), Shifted(m, k, j)) && j in Shifted(m, k, j)
    ensures Relabel(Chain(m), Shifted(m, k, j), j) == Shifted(m, k, j + 1)
  {
    ShiftedKeys(m, k, j);
    ShiftedAt(m, k, j, j);
    BestInChain(m, k, j);
    hide Weighted, Best, Nodes;
    OneShifted(m, k, j);
  }

  lemma OneShifted(m: nat, k: nat, j: nat)
    requires j <= m
    ensures Shifted(m, k, j)[j := Min(j + k + 1, m)] == Shifted(m, k, j + 1)
  {
    SameMap(Shifted(m, k, j)[j := Min(j + k + 1, m)], Shifted(m, k, j + 1));
  }

  function Upto(j: nat): seq<int> {
    if j == 0 then [] else Upto(j - 1) + [j - 1]
  }

  lemma {:induction false} UptoHolds(j: nat)
    ensures |Upto(j)| == j && forall n :: n in Upto(j) <==> 0 <= n < j
  {
    if j > 0 {
      UptoHolds(j - 1);
    }
  }

  /** A sweep that passes through `states`. */
  lemma {:induction false} SweepThrough(edges: EdgeList, states: nat -> Labels, j: nat)
    requires Labelled(edges, states(0)) && forall n :: n in Upto(j) ==> n in states(0)
    requires forall i: nat :: i < j ==>
      Labelled(edges, states(i)) && i in states(i) && Relabel(edges, states(i), i) == states(i + 1)
    ensures Sweep(edges, states(0), Upto(j)) == states(j)
  {
    hide Relabel, Labelled;
    if j > 0 {
      assert Upto(j)[..|Upto(j)| - 1] == Upto(j - 1);
      assert forall n :: n in Upto(j - 1) ==> n in Upto(j);
      SweepThrough(edges, states, j - 1);
      assert states(j - 1 + 1) == states(j);
    }
  }

  lemma SweepInChain(m: nat, k: nat)
    requires 0 < m
    ensures Labelled(Chain(m), Shifted(m, k, 0)) && forall n :: n in Upto(m + 1) ==> n in Shifted(m, k, 0)
    ensures Sweep(Chain(m), Shifted(m, k, 0), Upto(m + 1)) == Shifted(m, k, m + 1)
  {
    hide Relabel, Labelled, Sweep, Chain;
    var states := (i: nat) => Shifted(m, k, i);
    ShiftedKeys(m, k, 0);
    UptoHolds(m + 1);
    forall i: nat | i < m + 1
      ensures Labelled(Chain(m), states(i)) && i in states(i)
      ensures Relabel(Chain(m), states(i), i) == states(i + 1)
    {
      RelabelInChain(m, k, i);
    }
    SweepThrough(Chain(m), states, m + 1);
  }

  lemma {:induction false} AscendingRange(s: set<int>, low: nat, high: nat)
    requires low <= high && forall n :: n in s <==> low <= n < high
    ensures Upto(low) + Ascending(s) == Upto(high)
  {
    if low == high {
      assert forall n :: n !in s;
      assert s == {};
    } else {
      LeastOf(s, low);
      var rest := s - {low};
      AscendingRange(rest, low + 1, high);
      hide Ascending;
      assert Upto(low) + ([low] + Ascending(rest)) == (Upto(low) + [low]) + Ascending(rest);
    }
  }

  lemma LeastOf(s: set<int>, low: int)
    requires IsLeast(s, low)
    ensures s != {} && Least(s) == low && Ascending(s) == [low] + Ascending(s - {low})
  {}

  // ── Whole runs ──────────────────────────────────────────────────────────

  /** After `k` sweeps every node bears the label of the node `k` further on, or of the last one. */
  lemma {:induction false} SweepsInChain(m: nat, k: nat)
    requires m > 0
    ensures Sweeps(Chain(m), k) == Shifted(m, k, 0)
  {
    if k == 0 {
      forall n ensures n in Nodes(Chain(m)) <==> 0 <= n <= m {
        ChainNodes(m, n);
      }
      SameMap(Sweeps(Chain(m), 0), Shifted(m, 0, 0));
    } else {
      SweepsInChain(m, k - 1);
      SweepAllInChain(m, k - 1);
    }
  }

  lemma SweepAllInChain(m: nat, k: nat)
    requires m > 0
    ensures Labelled(Chain(m), Shifted(m, k, 0)) && SweepAll(Chain(m), Shifted(m, k, 0)) == Shifted(m, k + 1, 0)
  {
    SweepInChain(m, k);
    forall n ensures n in Nodes(Chain(m)) <==> 0 <= n < m + 1 {
      ChainNodes(m, n);
    }
    AscendingRange(Nodes(Chain(m)), 0, m + 1);
    assert Upto(0) + Ascending(Nodes(Chain(m))) == Ascending(Nodes(Chain(m)));
    SweepEnds(m, k);
  }

  /** The chain of `m` edges settles after `m` sweeps and not before. */
  lemma ChainSettlesExactly(m: nat, k: nat)
    requires m > 0
    ensures PositiveWeights(Chain(m)) && (Settled(Chain(m), k) <==> k >= m)
  {
    ChainIsPositive(m);
    SweepsInChain(m, k);
    SweepAllInChain(m, k);
    hide Chain, Sweeps, SweepAll, Nodes;
    var now, next := Shifted(m, k, 0), Shifted(m, k + 1, 0);
    if k >= m {
      SameMap(now, next);
    } else {
      ShiftedAt(m, k, 0, 0);
      ShiftedAt(m, k + 1, 0, 0);
      assert now[0] != next[0];
    }
  }

  /** So whatever `max_iter`, a longer chain is cut off: it comes out as more than one community, of which further
      sweeps would make one. */
  lemma ChainIsCutOff(m: nat, maxIter: nat, k: nat, ids: map<int, nat>)
    requires m > maxIter && SettlesAfter(Chain(m), maxIter, k)
    requires Numbered(Nodes(Chain(m)), Sweeps(Chain(m), k), ids)
    ensures 0 in ids && m in ids && ids[0] != ids[m]
    ensures forall n :: n in ids ==> n in Sweeps(Chain(m), m) && Sweeps(Chain(m), m)[n] == m
  {
    ChainSettlesExactly(m, k);
    SweepsInChain(m, k);
    SweepsInChain(m, m);
    ChainNodes(m, 0);
    ChainNodes(m, m);
    ShiftedAt(m, k, 0, 0);
    ShiftedAt(m, k, 0, m);
    forall n | n in ids ensures n in Sweeps(Chain(m), m) && Sweeps(Chain(m), m)[n] == m {
      ChainNodes(m, n);
      ShiftedAt(m, m, 0, n);
    }
  }

  const DEFAULT_MAX_ITER: nat := 25

  /** The default of 25 sweeps cuts off the chain of 26 edges. */
  lemma DefaultCutsOff()
    ensures PositiveWeights(Chain(26)) && !Settled(Chain(26), DEFAULT_MAX_ITER) && Settled(Chain(26), 26)
  {
    ChainSettlesExactly(26, DEFAULT_MAX_ITER);
    ChainSettlesExactly(26, 26);
  }
}
