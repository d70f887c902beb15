/** `shortest_path` (backend/graph_analytics.py:276-320): directed breadth-first search that carries
    the whole path in each queue entry and marks a node when it is queued. */
module ShortestPath {
  import opened GraphModel
  import opened Sets
  import opened Wrappers

  datatype Hop = Hop(node: int, relation: string)

  datatype PathResult = PathResult(path: seq<int>, relations: seq<string>, length: nat)

  /** One queue item: (current_node, path_so_far, relations_so_far). */
  datatype Entry = Entry(node: int, path: seq<int>, rels: seq<string>)

  // ── What a walk is ──────────────────────────────────────────────────────

  ghost predicate Labelled(edges: EdgeList, u: int, relation: string, v: int) {
    exists e :: e in edges && e.source == u && e.target == v && e.relation == relation
  }

  ghost predicate Adjacent(edges: EdgeList, u: int, v: int) {
    exists e :: e in edges && e.source == u && e.target == v
  }

  ghost predicate IsWalk(edges: EdgeList, p: seq<int>, source: int, target: int) {
    && p != [] && p[0] == source && p[|p| - 1] == target
    && forall i :: 0 <= i < |p| - 1 ==> Adjacent(edges, p[i], p[i + 1])
  }

  ghost predicate Simple(p: seq<int>) {
    forall i, j :: 0 <= i < j < |p| ==> p[i] != p[j]
  }

  /** The i-th relation labels the i-th step of the path. */
  ghost predicate LabelsSteps(edges: EdgeList, p: seq<int>, rels: seq<string>) {
    && |p| == |rels| + 1
    && forall i :: 0 <= i < |rels| ==> Labelled(edges, p[i], rels[i], p[i + 1])
  }

  // ── The adjacency dictionary ────────────────────────────────────────────

  function Hops(edges: EdgeList, n: int): seq<Hop> {
    if edges == [] then []
    else
      var before, last := edges[..|edges| - 1], edges[|edges| - 1];
      if last.source == n then Hops(before, n) + [Hop(last.target, last.relation)] else Hops(before, n)
  }

  function HopsFrom(adj: map<int, seq<Hop>>, n: int): seq<Hop> {
    if n in adj then adj[n] else []
  }

  lemma {:induction false} HopsAreEdges(edges: EdgeList, n: int)
    ensures forall h :: h in Hops(edges, n) ==> Labelled(edges, n, h.relation, h.node)
    ensures forall e :: e in edges && e.source == n ==> Hop(e.target, e.relation) in Hops(edges, n)
  {
    if edges != [] {
      var before, last := edges[..|edges| - 1], edges[|edges| - 1];
      HopsAreEdges(before, n);
      assert edges == before + [last];
      forall h | h in Hops(edges, n) ensures Labelled(edges, n, h.relation, h.node) {
        if h in Hops(before, n) {
          var e :| e in before && e.source == n && e.target == h.node && e.relation == h.relation;
          assert e in edges;
        } else {
          assert last in edges;
        }
      }
    }
  }

  method BuildAdjacency(edges: EdgeList) returns (adj: map<int, seq<Hop>>)
    ensures forall n :: HopsFrom(adj, n) == Hops(edges, n)
  {
    adj := map[];
    for i := 0 to |edges|
      invariant forall n :: HopsFrom(adj, n) == Hops(edges[..i], n)
    {
      var e := edges[i];
      assert edges[..i + 1][..i] == edges[..i];
      adj := adj[e.source := HopsFrom(adj, e.source) + [Hop(e.target, e.relation)]];
    }
    assert edges[..|edges|] == edges;
  }

  // ── The search ──────────────────────────────────────────────────────────

  ghost predicate EntryOk(edges: EdgeList, source: int, visited: set<int>, e: Entry) {
    && IsWalk(edges, e.path, source, e.node)
    && LabelsSteps(edges, e.path, e.rels)
    && Simple(e.path)
    && forall n :: n in e.path ==> n in visited
  }

  /** The queue is sorted by depth and spans at most two levels, and nothing deeper has been visited. */
  ghost predicate Layered(queue: seq<Entry>, levels: map<int, nat>, depth: nat) {
    && (forall n :: n in levels ==> levels[n] <= depth + 1)
    && (forall i, j :: 0 <= i < j < |queue| ==> |queue[i].rels| <= |queue[j].rels|)
    && (forall i :: 0 <= i < |queue| ==> depth <= |queue[i].rels| <= depth + 1)
  }

  lemma LayeredPush(queue: seq<Entry>, levels: map<int, nat>, next: Entry, depth: nat)
    requires Layered(queue, levels, depth) && |next.rels| == depth + 1
    ensures Layered(queue + [next], levels[next.node := depth + 1], depth)
  {}

  /** A layered queue stays so without its front, and may be measured from its front. */
  lemma LayeredAround(queue: seq<Entry>, levels: map<int, nat>, depth: nat)
    requires Layered(queue, levels, depth)
    ensures queue != [] ==> Layered(queue[1..], levels, depth) && Layered(queue, levels, |queue[0].rels|)
  {}

  /** Every node whose hops have all been followed passes its depth, plus one, on to them. */
  ghost predicate Relaxed(edges: EdgeList, levels: map<int, nat>, finished: set<int>) {
    forall u, v :: u in finished && Adjacent(edges, u, v) ==>
      u in levels && v in levels && levels[v] <= levels[u] + 1
  }

  /** `levels` gives each visited node its depth; what is not finished waits in the queue. */
  ghost predicate Tracked(queue: seq<Entry>, levels: map<int, nat>, finished: set<int>) {
    && (forall i :: 0 <= i < |queue| ==> queue[i].node in levels && levels[queue[i].node] == |queue[i].rels|)
    && (forall n :: n in levels ==> n in finished || exists i :: 0 <= i < |queue| && queue[i].node == n)
  }

  /** When everything above level `depth` is finished, a walk of at most `depth` steps ends in a visited node. */
  lemma {:induction false} ShortWalksAreVisited(edges: EdgeList, source: int, levels: map<int, nat>, finished: set<int>,
                                                depth: nat, p: seq<int>, target: int)
    requires source in levels && levels[source] == 0
    requires Relaxed(edges, levels, finished)
    requires forall n :: n in levels && levels[n] < depth ==> n in finished
    requires IsWalk(edges, p, source, target) && |p| - 1 <= depth
    ensures target in levels && levels[target] <= |p| - 1
  {
    if |p| > 1 {
      var q := p[..|p| - 1];
      ShortWalksAreVisited(edges, source, levels, finished, depth, q, q[|q| - 1]);
      assert Adjacent(edges, p[|p| - 2], p[|p| - 1]);
    }
  }

  lemma ExtendWalk(edges: EdgeList, source: int, visited: set<int>, e: Entry, h: Hop)
    requires EntryOk(edges, source, visited, e) && h.node !in visited
    requires Labelled(edges, e.node, h.relation, h.node)
    ensures EntryOk(edges, source, visited + {h.node}, Entry(h.node, e.path + [h.node], e.rels + [h.relation]))
  {
    var p, rels := e.path + [h.node], e.rels + [h.relation];
    var k := |e.rels|;
    var edge :| edge in edges && edge.source == e.node && edge.target == h.node && edge.relation == h.relation;
    assert Adjacent(edges, p[k], p[k + 1]);
    forall i | 0 <= i < |p| - 1 ensures Adjacent(edges, p[i], p[i + 1]) {
      if i < k {
        assert Adjacent(edges, e.path[i], e.path[i + 1]);
      }
    }
    forall i | 0 <= i < |rels| ensures Labelled(edges, p[i], rels[i], p[i + 1]) {
      if i < k {
        assert Labelled(edges, e.path[i], e.rels[i], e.path[i + 1]);
      }
    }
    forall i, j | 0 <= i < j < |p| ensures p[i] != p[j] {
      if j == k + 1 {
        assert e.path[i] in visited;
      }
    }
  }

  ghost predicate Shortest(edges: EdgeList, p: seq<int>, source: int, target: int) {
    forall q :: IsWalk(edges, q, source, target) ==> |p| <= |q|
  }

  /** What every turn of the outer loop keeps. */
  ghost predicate Searching(edges: EdgeList, source: int, target: int, queue: seq<Entry>, visited: set<int>,
                            levels: map<int, nat>, finished: set<int>) {
    && visited == levels.Keys && visited <= Nodes(edges) + {source} && finished <= visited
    && source in visited && levels[source] == 0 && target !in visited
    && (forall i :: 0 <= i < |queue| ==> EntryOk(edges, source, visited, queue[i]))
    && Tracked(queue, levels, finished)
    && Relaxed(edges, levels, finished)
  }

  ghost predicate IsShortestPath(edges: EdgeList, r: PathResult, source: int, target: int) {
    && IsWalk(edges, r.path, source, target)
    && LabelsSteps(edges, r.path, r.relations)
    && Simple(r.path)
    && r.length == |r.relations|
    && Shortest(edges, r.path, source, target)
  }

  method FindShortestPath(source: int, target: int, edges: EdgeList) returns (result: Option<PathResult>)
    ensures result.Some? ==> IsShortestPath(edges, result.value, source, target)
    ensures result.None? <==> forall p :: !IsWalk(edges, p, source, target)
  {
    if source == target {
      assert IsWalk(edges, [source], source, target);
      return Some(PathResult([source], [], 0));
    }
    hide Nodes;
    var adj := BuildAdjacency(edges);
    var queue := [Entry(source, [source], [])];
    var visited := {source};
    ghost var levels: map<int, nat> := map[source := 0];
    ghost var finished: set<int> := {};
    ghost var all := Nodes(edges) + {source};
    assert Tracked(queue, levels, finished) by {
      assert queue[0].node == source;
    }
    while queue != []
      invariant Searching(edges, source, target, queue, visited, levels, finished)
      invariant queue != [] ==> Layered(queue, levels, |queue[0].rels|)
      decreases |all - visited|, |queue|
    {
      var found;
      found, queue, visited, levels, finished :=
        Expand(edges, adj, source, target, queue, visited, levels, finished);
      if found.Some? {
        return found;
      }
    }
    forall p ensures !IsWalk(edges, p, source, target) {
      if IsWalk(edges, p, source, target) {
        ShortWalksAreVisited(edges, source, levels, finished, |p|, p, target);
      }
    }
    return None;
  }

  /** One turn of the outer loop: pop the front entry and follow its hops. */
  method Expand(ghost edges: EdgeList, adj: map<int, seq<Hop>>, source: int, target: int,
                queue0: seq<Entry>, visited0: set<int>, ghost levels0: map<int, nat>, ghost finished0: set<int>)
      returns (found: Option<PathResult>, queue: seq<Entry>, visited: set<int>,
               ghost levels: map<int, nat>, ghost finished: set<int>)
    requires forall n :: HopsFrom(adj, n) == Hops(edges, n)
    requires queue0 != [] && Layered(queue0, levels0, |queue0[0].rels|)
    requires Searching(edges, source, target, queue0, visited0, levels0, finished0)
    ensures found.Some? ==> IsShortestPath(edges, found.value, source, target)
    ensures found.None? ==>
      && Searching(edges, source, target, queue, visited, levels, finished)
      && (queue != [] ==> Layered(queue, levels, |queue[0].rels|))
      && var all := Nodes(edges) + {source};
         (|all - visited| < |all - visited0| || (visited == visited0 && |queue| < |queue0|))
  {
    hide Nodes, EntryOk, Relaxed, Tracked, Layered, IsShortestPath;
    var curr := queue0[0];
    queue, visited, levels, finished := queue0[1..], visited0, levels0, finished0;
    assert [curr] + queue == queue0;
    LayeredAround(queue0, levels0, |queue0[0].rels|);
    var hops := HopsFrom(adj, curr.node);
    HopsAreEdges(edges, curr.node);
    var depth := |curr.rels|;
    for k := 0 to |hops|
      invariant Searching(edges, source, target, [curr] + queue, visited, levels, finished)
      invariant visited0 <= visited && finished == finished0
      invariant Layered(queue, levels, depth)
      invariant forall j :: 0 <= j < k ==> hops[j].node in levels
      invariant |queue| + 1 - |queue0| == |visited| - |visited0|
    {
      var hop := hops[k];
      assert Labelled(edges, curr.node, hop.relation, hop.node);
      if hop.node !in visited {
        var next := Entry(hop.node, curr.path + [hop.node], curr.rels + [hop.relation]);
        if hop.node == target {
          TargetFound(edges, source, target, curr, queue, visited, levels, finished, hop);
          return Some(PathResult(next.path, next.rels, |next.path| - 1)), queue, visited, levels, finished;
        }
        PushKeeps(edges, source, target, curr, queue, visited, levels, finished, hop);
        LayeredPush(queue, levels, next, depth);
        visited := visited + {hop.node};
        levels := levels[hop.node := depth + 1];
        queue := queue + [next];
      }
    }
    FinishKeeps(edges, source, target, curr, queue, visited, levels, finished);
    LayeredAround(queue, levels, depth);
    finished := finished + {curr.node};
    SubsetSize(visited0, visited);
    SubsetSize(Nodes(edges) + {source} - visited, Nodes(edges) + {source} - visited0);
    found := None;
  }

  /** The target is not visited, so no walk of at most the current depth reaches it: one more step is optimal. */
  lemma TargetFound(edges: EdgeList, source: int, target: int, curr: Entry, queue: seq<Entry>, visited: set<int>,
                    levels: map<int, nat>, finished: set<int>, hop: Hop)
    requires Searching(edges, source, target, [curr] + queue, visited, levels, finished)
    requires Layered(queue, levels, |curr.rels|) && hop.node == target
    requires Labelled(edges, curr.node, hop.relation, target)
    ensures var p := curr.path + [target];
            IsShortestPath(edges, PathResult(p, curr.rels + [hop.relation], |p| - 1), source, target)
  {
    hide Nodes;
    var before := [curr] + queue;
    assert before[0] == curr;
    ExtendWalk(edges, source, visited, curr, hop);
    forall q | IsWalk(edges, q, source, target) ensures |q| >= |curr.rels| + 2 {
      if |q| - 1 <= |curr.rels| {
        ShortWalksAreVisited(edges, source, levels, finished, |curr.rels|, q, target);
      }
    }
  }

  lemma PushKeeps(edges: EdgeList, source: int, target: int, curr: Entry, queue: seq<Entry>, visited: set<int>,
                  levels: map<int, nat>, finished: set<int>, hop: Hop)
    requires Searching(edges, source, target, [curr] + queue, visited, levels, finished)
    requires hop.node !in visited && hop.node != target
    requires Labelled(edges, curr.node, hop.relation, hop.node)
    ensures Searching(edges, source, target,
                      [curr] + (queue + [Entry(hop.node, curr.path + [hop.node], curr.rels + [hop.relation])]),
                      visited + {hop.node}, levels[hop.node := |curr.rels| + 1], finished)
  {
    hide Nodes;
    var next := Entry(hop.node, curr.path + [hop.node], curr.rels + [hop.relation]);
    var before, after := [curr] + queue, [curr] + (queue + [next]);
    assert after == before + [next] && before[0] == curr;
    ExtendWalk(edges, source, visited, curr, hop);
    var levels' := levels[hop.node := |curr.rels| + 1];
    forall n | n in levels' ensures n in finished || exists i :: 0 <= i < |after| && after[i].node == n {
      if n == hop.node {
        assert after[|before|].node == n;
      } else if n !in finished {
        var i :| 0 <= i < |before| && before[i].node == n;
        assert after[i].node == n;
      }
    }
  }

  lemma FinishTracked(curr: Entry, queue: seq<Entry>, levels: map<int, nat>, finished: set<int>)
    requires Tracked([curr] + queue, levels, finished)
    ensures Tracked(queue, levels, finished + {curr.node})
  {
    var before := [curr] + queue;
    assert before[0] == curr;
    assert forall i :: 0 <= i < |queue| ==> queue[i] == before[i + 1];
    forall n | n in levels && n !in finished && n != curr.node
      ensures exists i :: 0 <= i < |queue| && queue[i].node == n
    {
      var i :| 0 <= i < |before| && before[i].node == n;
      assert queue[i - 1].node == n;
    }
  }

  lemma FinishRelaxed(edges: EdgeList, curr: Entry, levels: map<int, nat>, finished: set<int>)
    requires Relaxed(edges, levels, finished) && curr.node in levels && levels[curr.node] == |curr.rels|
    requires forall h :: h in Hops(edges, curr.node) ==> h.node in levels && levels[h.node] <= |curr.rels| + 1
    ensures Relaxed(edges, levels, finished + {curr.node})
  {
    HopsAreEdges(edges, curr.node);
    forall v | Adjacent(edges, curr.node, v) ensures v in levels && levels[v] <= |curr.rels| + 1 {
      var e :| e in edges && e.source == curr.node && e.target == v;
      assert Hop(e.target, e.relation) in Hops(edges, curr.node);
    }
  }

  /** Once its hops are followed, the current node is finished. */
  lemma FinishKeeps(edges: EdgeList, source: int, target: int, curr: Entry, queue: seq<Entry>, visited: set<int>,
                    levels: map<int, nat>, finished: set<int>)
    requires Searching(edges, source, target, [curr] + queue, visited, levels, finished)
    requires Layered(queue, levels, |curr.rels|)
    requires forall h :: h in Hops(edges, curr.node) ==> h.node in levels
    ensures Searching(edges, source, target, queue, visited, levels, finished + {curr.node})
  {
    assert curr.node in levels && levels[curr.node] == |curr.rels| by {
      assert ([curr] + queue)[0] == curr;
    }
    var before := [curr] + queue;
    assert before[0] == curr;
    forall i | 0 <= i < |queue| ensures EntryOk(edges, source, visited, queue[i]) {
      assert queue[i] == before[i + 1];
    }
    forall h | h in Hops(edges, curr.node) ensures h.node in levels && levels[h.node] <= |curr.rels| + 1 {}
    hide Nodes, EntryOk, Tracked, Relaxed, Hops;
    FinishTracked(curr, queue, levels, finished);
    FinishRelaxed(edges, curr, levels, finished);
    assert Searching(edges, source, target, queue, visited, levels, finished + {curr.node});
  }
}
