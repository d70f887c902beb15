/** The data every analytics function of `backend/graph_analytics.py` receives: a list of
    (source, target, relation, weight) rows, read once and never changed. */
module GraphModel {
  import opened Wrappers

  datatype Edge = Edge(source: int, target: int, relation: string, weight: Option<real>)

  type EdgeList = seq<Edge>

  /** Every endpoint of every edge, gathered edge by edge. */
  function Nodes(edges: EdgeList): (nodes: set<int>)
    ensures forall e :: e in edges ==> e.source in nodes && e.target in nodes
    ensures edges != [] ==> nodes != {}
  {
    if edges == [] then {}
    else
      var before, last := edges[..|edges| - 1], edges[|edges| - 1];
      assert edges == before + [last];
      Nodes(before) + {last.source, last.target}
  }

  /** The nodes are the endpoints of the edges and nothing else. */
  lemma {:induction false} NodesExactly(edges: EdgeList, n: int)
    ensures n in Nodes(edges) <==> exists e :: e in edges && (e.source == n || e.target == n)
  {
    if edges != [] {
      var before, last := edges[..|edges| - 1], edges[|edges| - 1];
      assert edges == before + [last];
      NodesExactly(before, n);
      if e :| e in edges && (e.source == n || e.target == n) {
        assert e in before || e == last;
      }
      assert forall e :: e in before ==> e in edges;
    }
  }

  /** Targets of the edges leaving `n`, in list order, repeated for parallel edges. */
  function Successors(edges: EdgeList, n: int): (out: seq<int>)
    ensures forall e :: e in edges && e.source == n ==> |out| > 0
  {
    if edges == [] then []
    else
      var before, last := edges[..|edges| - 1], edges[|edges| - 1];
      assert edges == before + [last];
      if last.source == n then Successors(before, n) + [last.target] else Successors(before, n)
  }

  /** Sources of the edges entering `n`, in list order, repeated for parallel edges. */
  function Predecessors(edges: EdgeList, n: int): seq<int> {
    if edges == [] then []
    else
      var before, last := edges[..|edges| - 1], edges[|edges| - 1];
      if last.target == n then Predecessors(before, n) + [last.source] else Predecessors(before, n)
  }

  // ── The adjacency dictionaries ──────────────────────────────────────────

  type Neighbours = map<int, seq<int>>

  /** `neighbours.get(n, [])`. */
  function Lookup(neighbours: Neighbours, n: int): seq<int> {
    if n in neighbours then neighbours[n] else []
  }

  ghost predicate Indexes(edges: EdgeList, outbound: Neighbours, inbound: Neighbours) {
    && (forall n :: Lookup(outbound, n) == Successors(edges, n))
    && (forall n :: Lookup(inbound, n) == Predecessors(edges, n))
  }

  /** The loop that fills `nodes`, `out_neighbors` and `in_neighbors` edge by edge. */
  method BuildIndex(edges: EdgeList) returns (nodes: set<int>, outbound: Neighbours, inbound: Neighbours)
    ensures nodes == Nodes(edges)
    ensures Indexes(edges, outbound, inbound)
  {
    nodes, outbound, inbound := {}, map[], map[];
    for i := 0 to |edges|
      invariant nodes == Nodes(edges[..i])
      invariant Indexes(edges[..i], outbound, inbound)
    {
      var e := edges[i];
      assert edges[..i + 1][..i] == edges[..i];
      nodes := nodes + {e.source, e.target};
      outbound := outbound[e.source := Lookup(outbound, e.source) + [e.target]];
      inbound := inbound[e.target := Lookup(inbound, e.target) + [e.source]];
    }
    assert edges[..|edges|] == edges;
  }
}
