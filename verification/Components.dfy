/** `connected_components` and `component_sizes` (backend/graph_analytics.py:123-162): a breadth-first
    flood that marks a node when it leaves the queue, so the queue may hold a node many times. */
module Components {
  import opened GraphModel
  import opened Sets

  /** An edge read without its direction. */
  ghost predicate Joined(edges: EdgeList, u: int, v: int) {
    exists e :: e in edges && ((e.source == u && e.target == v) || (e.source == v && e.target == u))
  }

  ghost predicate IsWalk(edges: EdgeList, p: seq<int>, u: int, v: int) {
    && p != [] && p[0] == u && p[|p| - 1] == v
    && forall i :: 0 <= i < |p| - 1 ==> Joined(edges, p[i], p[i + 1])
  }

  /** Some undirected walk joins `u` and `v`. */
  ghost predicate Connected(edges: EdgeList, u: int, v: int) {
    exists p :: IsWalk(edges, p, u, v)
  }

  lemma ConnectedRefl(edges: EdgeList, u: int)
    ensures Connected(edges, u, u)
  {
    assert IsWalk(edges, [u], u, u);
  }

  lemma ConnectedStep(edges: EdgeList, u: int, v: int, w: int)
    requires Connected(edges, u, v) && Joined(edges, v, w)
    ensures Connected(edges, u, w)
  {
    var p :| IsWalk(edges, p, u, v);
    var q := p + [w];
    forall i | 0 <= i < |q| - 1 ensures Joined(edges, q[i], q[i + 1]) {
      if i < |p| - 1 {
        assert Joined(edges, p[i], p[i + 1]);
      }
    }
    assert IsWalk(edges, q, u, w);
  }

  lemma {:induction false} WalkSymmetric(edges: EdgeList, p: seq<int>, u: int, v: int)
    requires IsWalk(edges, p, u, v)
    ensures Connected(edges, v, u)
  {
    if |p| == 1 {
      ConnectedRefl(edges, u);
    } else {
      WalkSymmetric(edges, p[1..], p[1], v);
      assert Joined(edges, p[0], p[1]);
      ConnectedStep(edges, v, p[1], u);
    }
  }

  lemma {:induction false} WalkJoins(edges: EdgeList, u: int, p: seq<int>, v: int, w: int)
    requires Connected(edges, u, v) && IsWalk(edges, p, v, w)
    ensures Connected(edges, u, w)
  {
    if |p| > 1 {
      var q := p[..|p| - 1];
      WalkJoins(edges, u, q, v, q[|q| - 1]);
      assert Joined(edges, p[|p| - 2], p[|p| - 1]);
      ConnectedStep(edges, u, q[|q| - 1], w);
    }
  }

  lemma ConnectedTrans(edges: EdgeList, u: int, v: int, w: int)
    requires Connected(edges, u, v) && Connected(edges, v, w)
    ensures Connected(edges, u, w)
  {
    var p :| IsWalk(edges, p, v, w);
    WalkJoins(edges, u, p, v, w);
  }

  lemma ConnectedSym(edges: EdgeList, u: int, v: int)
    requires Connected(edges, u, v)
    ensures Connected(edges, v, u)
  {
    var p :| IsWalk(edges, p, u, v);
    WalkSymmetric(edges, p, u, v);
  }

  ghost predicate Closed(edges: EdgeList, s: set<int>) {
    forall u, v :: u in s && Joined(edges, u, v) ==> v in s
  }

  lemma {:induction false} WalkStaysInside(edges: EdgeList, s: set<int>, p: seq<int>, u: int, v: int)
    requires Closed(edges, s) && u in s && IsWalk(edges, p, u, v)
    ensures v in s
  {
    if |p| > 1 {
      assert Joined(edges, p[0], p[1]);
      WalkStaysInside(edges, s, p[1..], p[1], v);
    }
  }

  lemma ConnectedStaysInside(edges: EdgeList, s: set<int>, u: int, v: int)
    requires Closed(edges, s) && Connected(edges, u, v)
    ensures u in s <==> v in s
  {
    ConnectedSym(edges, u, v);
    if u in s {
      var p :| IsWalk(edges, p, u, v);
      WalkStaysInside(edges, s, p, u, v);
    }
    if v in s {
      var p :| IsWalk(edges, p, v, u);
      WalkStaysInside(edges, s, p, v, u);
    }
  }

  // ── The adjacency sets ──────────────────────────────────────────────────

  function Beside(edges: EdgeList, n: int): set<int> {
    if edges == [] then {}
    else
      var last := edges[|edges| - 1];
      Beside(edges[..|edges| - 1], n)
        + (if last.source == n then {last.target} else {})
        + (if last.target == n then {last.source} else {})
  }

  lemma {:induction false} BesideIsJoined(edges: EdgeList, n: int)
    ensures forall v :: v in Beside(edges, n) <==> Joined(edges, n, v)
  {
    if edges != [] {
      var before, last := edges[..|edges| - 1], edges[|edges| - 1];
      assert edges == before + [last];
      BesideIsJoined(before, n);
      forall v ensures v in Beside(edges, n) <==> Joined(edges, n, v) {
        if Joined(edges, n, v) && v !in Beside(before, n) {
          assert !Joined(before, n, v);
        }
        if v in Beside(before, n) {
          assert Joined(before, n, v);
        } else if v in Beside(edges, n) {
          assert last in edges;
        }
      }
    }
  }

  function NeighboursOf(adj: map<int, set<int>>, n: int): set<int> {
    if n in adj then adj[n] else {}
  }

  function Add(adj: map<int, set<int>>, u: int, v: int): (adj': map<int, set<int>>)
    ensures forall n :: NeighboursOf(adj', n) == NeighboursOf(adj, n) + (if n == u then {v} else {})
  {
    adj[u := NeighboursOf(adj, u) + {v}]
  }

  method BuildAdjacency(edges: EdgeList) returns (adj: map<int, set<int>>, nodes: set<int>)
    ensures forall n :: NeighboursOf(adj, n) == Beside(edges, n)
    ensures nodes == Nodes(edges)
  {
    adj, nodes := map[], {};
    for i := 0 to |edges|
      invariant forall n :: NeighboursOf(adj, n) == Beside(edges[..i], n)
      invariant nodes == Nodes(edges[..i])
    {
      var e := edges[i];
      assert edges[..i + 1][..i] == edges[..i];
      adj := Add(Add(adj, e.source, e.target), e.target, e.source);
      nodes := nodes + {e.source, e.target};
    }
    assert edges[..|edges|] == edges;
  }

  // ── The flood ───────────────────────────────────────────────────────────

  ghost predicate UsedId(components: map<int, nat>, c: nat) {
    exists u :: u in components && components[u] == c
  }

  /** Between components: what is marked is closed, ids are 0..next-1, and equal ids mean connected. */
  ghost predicate Partitioned(edges: EdgeList, visited: map<int, nat>, next: nat) {
    && visited.Keys <= Nodes(edges) && Closed(edges, visited.Keys)
    && (forall u, v :: u in visited && v in visited ==> (visited[u] == visited[v] <==> Connected(edges, u, v)))
    && (forall u :: u in visited ==> visited[u] < next)
    && (forall c: nat :: c < next ==> UsedId(visited, c))
  }

  /** Inside one component: `visited` extends `before` by nodes connected to the seed, whose
      neighbours are marked or waiting in the queue. */
  ghost predicate Flooding(edges: EdgeList, before: map<int, nat>, next: nat, seed: int,
                           queue: seq<int>, visited: map<int, nat>) {
    && before.Keys <= visited.Keys <= Nodes(edges)
    && (forall u :: u in before ==> visited[u] == before[u])
    && (forall u :: u in visited && u !in before ==> visited[u] == next && Connected(edges, seed, u))
    && (forall q :: q in queue ==> q in Nodes(edges) && Connected(edges, seed, q))
    && (forall u, v :: u in visited && u !in before && Joined(edges, u, v) ==> v in visited || v in queue)
    && (seed in visited || seed in queue)
  }

  method ConnectedComponents(edges: EdgeList) returns (visited: map<int, nat>, ghost count: nat)
    ensures visited.Keys == Nodes(edges)
    ensures forall u, v :: u in visited && v in visited ==> (visited[u] == visited[v] <==> Connected(edges, u, v))
    ensures forall c: nat :: UsedId(visited, c) <==> c < count
  {
    var adj, nodes := BuildAdjacency(edges);
    visited := map[];
    var compId := 0;
    var rest := nodes;
    while rest != {}
      invariant rest <= nodes && nodes - rest <= visited.Keys
      invariant Partitioned(edges, visited, compId)
      decreases rest
    {
      SomeMember(rest);
      var node :| node in rest;
      rest := rest - {node};
      if node !in visited {
        visited := Flood(edges, adj, node, compId, visited);
        compId := compId + 1;
      }
    }
    count := compId;
  }

  method Flood(ghost edges: EdgeList, adj: map<int, set<int>>, node: int, compId: nat, before: map<int, nat>)
      returns (visited: map<int, nat>)
    requires forall n :: NeighboursOf(adj, n) == Beside(edges, n)
    requires Partitioned(edges, before, compId) && node in Nodes(edges) && node !in before
    ensures before.Keys <= visited.Keys && node in visited
    ensures Partitioned(edges, visited, compId + 1)
  {
    hide Nodes, Connected, Partitioned, Flooding;
    FloodStarts(edges, before, compId, node);
    visited := before;
    var queue := [node];
    while queue != []
      invariant Flooding(edges, before, compId, node, queue, visited)
      decreases |Nodes(edges) - visited.Keys|, |queue|
    {
      var curr := queue[0];
      if curr in visited {
        queue := DropMarked(edges, before, compId, node, queue, visited);
      } else {
        queue, visited := Mark(edges, NeighboursOf(adj, curr), before, compId, node, queue, visited);
      }
    }
    FloodDone(edges, before, compId, node, visited);
  }

  method DropMarked(ghost edges: EdgeList, ghost before: map<int, nat>, ghost next: nat, ghost seed: int,
                    queue: seq<int>, visited: map<int, nat>) returns (rest: seq<int>)
    requires queue != [] && queue[0] in visited && Flooding(edges, before, next, seed, queue, visited)
    ensures |rest| < |queue| && Flooding(edges, before, next, seed, rest, visited)
  {
    hide Nodes, Connected;
    rest := queue[1..];
    assert forall q :: q in queue ==> q == queue[0] || q in rest;
  }

  /** Mark the front node and queue its unmarked neighbours, in any order. */
  method Mark(ghost edges: EdgeList, neighbours: set<int>, ghost before: map<int, nat>, next: nat, ghost seed: int,
              queue0: seq<int>, visited0: map<int, nat>) returns (queue: seq<int>, visited: map<int, nat>)
    requires queue0 != [] && queue0[0] !in visited0 && neighbours == Beside(edges, queue0[0])
    requires Flooding(edges, before, next, seed, queue0, visited0)
    ensures |Nodes(edges) - visited.Keys| < |Nodes(edges) - visited0.Keys|
    ensures Flooding(edges, before, next, seed, queue, visited)
  {
    visited := visited0[queue0[0] := next];
    queue := QueueUnmarked(neighbours, visited, queue0[1..]);
    MarkKeeps(edges, before, next, seed, queue0, visited0, queue);
  }

  method QueueUnmarked(neighbours: set<int>, visited: map<int, nat>, queue0: seq<int>) returns (queue: seq<int>)
    ensures forall q :: q in queue0 ==> q in queue
    ensures forall q :: q in queue ==> q in queue0 || q in neighbours
    ensures forall v :: v in neighbours ==> v in visited || v in queue
  {
    queue := queue0;
    var rest := neighbours;
    while rest != {}
      invariant rest <= neighbours
      invariant forall q :: q in queue0 ==> q in queue
      invariant forall q :: q in queue ==> q in queue0 || q in neighbours
      invariant forall v :: v in neighbours && v !in rest ==> v in visited || v in queue
      decreases rest
    {
      SomeMember(rest);
      var v :| v in rest;
      if v !in visited {
        queue := queue + [v];
      }
      rest := rest - {v};
    }
  }

  lemma MarkKeeps(edges: EdgeList, before: map<int, nat>, next: nat, seed: int,
                  queue0: seq<int>, visited0: map<int, nat>, queue: seq<int>)
    requires queue0 != [] && queue0[0] !in visited0
    requires Flooding(edges, before, next, seed, queue0, visited0)
    requires forall q :: q in queue0[1..] ==> q in queue
    requires forall q :: q in queue ==> q in queue0[1..] || q in Beside(edges, queue0[0])
    requires forall v :: v in Beside(edges, queue0[0]) ==> v in visited0[queue0[0] := next] || v in queue
    ensures Flooding(edges, before, next, seed, queue, visited0[queue0[0] := next])
    ensures |Nodes(edges) - visited0[queue0[0] := next].Keys| < |Nodes(edges) - visited0.Keys|
  {
    hide Nodes, Connected, Joined, Beside;
    var curr := queue0[0];
    var visited := visited0[curr := next];
    assert forall q :: q in queue ==> q in Nodes(edges) && Connected(edges, seed, q) by {
      MarkReaches(edges, seed, queue0, queue);
    }
    assert forall u, v :: u in visited && u !in before && Joined(edges, u, v) ==> v in visited || v in queue by {
      MarkCloses(edges, before, next, seed, queue0, visited0, queue);
    }
    assert seed in visited || seed in queue by {
      StillClosed(queue0, visited0, queue, next, seed);
    }
    assert curr in queue0;
    assert forall u :: u in visited && u !in before ==> visited[u] == next && Connected(edges, seed, u);
    assert forall u :: u in before ==> u in visited && visited[u] == before[u];
    assert forall u :: u in visited ==> u in Nodes(edges);
    assert Flooding(edges, before, next, seed, queue, visited);
    MarkShrinks(edges, visited0, curr, next);
  }

  lemma MarkReaches(edges: EdgeList, seed: int, queue0: seq<int>, queue: seq<int>)
    requires queue0 != [] && forall q :: q in queue0 ==> q in Nodes(edges) && Connected(edges, seed, q)
    requires forall q :: q in queue ==> q in queue0[1..] || q in Beside(edges, queue0[0])
    ensures forall q :: q in queue ==> q in Nodes(edges) && Connected(edges, seed, q)
  {
    hide Nodes, Connected, Beside;
    forall q | q in queue ensures q in Nodes(edges) && Connected(edges, seed, q) {
      if q in queue0[1..] {
        assert q in queue0;
      } else {
        assert queue0[0] in queue0;
        BesideIsReached(edges, seed, queue0[0], q);
      }
    }
  }

  lemma MarkCloses(edges: EdgeList, before: map<int, nat>, next: nat, seed: int,
                   queue0: seq<int>, visited0: map<int, nat>, queue: seq<int>)
    requires queue0 != [] && forall q :: q in queue0[1..] ==> q in queue
    requires Flooding(edges, before, next, seed, queue0, visited0)
    requires forall v :: v in Beside(edges, queue0[0]) ==> v in visited0[queue0[0] := next] || v in queue
    ensures forall u, v :: u in visited0[queue0[0] := next] && u !in before && Joined(edges, u, v) ==>
              v in visited0[queue0[0] := next] || v in queue
  {
    hide Nodes, Connected, Joined, Beside;
    forall u, v | u in visited0[queue0[0] := next] && u !in before && Joined(edges, u, v)
      ensures v in visited0[queue0[0] := next] || v in queue
    {
      if u == queue0[0] {
        JoinedIsBeside(edges, u, v);
      } else {
        StillClosed(queue0, visited0, queue, next, v);
      }
    }
  }

  lemma BesideIsReached(edges: EdgeList, seed: int, u: int, v: int)
    requires Connected(edges, seed, u) && v in Beside(edges, u)
    ensures v in Nodes(edges) && Connected(edges, seed, v)
  {
    hide Nodes, Connected, Joined, Beside;
    BesideIsJoined(edges, u);
    JoinedAreNodes(edges, u, v);
    ConnectedStep(edges, seed, u, v);
  }

  lemma JoinedIsBeside(edges: EdgeList, u: int, v: int)
    requires Joined(edges, u, v)
    ensures v in Beside(edges, u)
  {
    BesideIsJoined(edges, u);
  }

  lemma StillClosed(queue0: seq<int>, visited0: map<int, nat>, queue: seq<int>, next: nat, v: int)
    requires queue0 != [] && (v in visited0 || v in queue0)
    requires forall q :: q in queue0[1..] ==> q in queue
    ensures v in visited0[queue0[0] := next] || v in queue
  {
    assert queue0 == [queue0[0]] + queue0[1..];
  }

  lemma MarkShrinks(edges: EdgeList, visited0: map<int, nat>, curr: int, next: nat)
    requires curr in Nodes(edges) && curr !in visited0
    ensures |Nodes(edges) - visited0[curr := next].Keys| < |Nodes(edges) - visited0.Keys|
  {
    hide Nodes;
    assert curr in Nodes(edges) - visited0.Keys;
    SubsetSize(Nodes(edges) - visited0[curr := next].Keys, Nodes(edges) - visited0.Keys);
  }

  lemma FloodStarts(edges: EdgeList, before: map<int, nat>, next: nat, seed: int)
    requires Partitioned(edges, before, next) && seed in Nodes(edges)
    ensures Flooding(edges, before, next, seed, [seed], before)
  {
    hide Nodes, Connected;
    ConnectedRefl(edges, seed);
  }

  lemma JoinedAreNodes(edges: EdgeList, u: int, v: int)
    requires Joined(edges, u, v)
    ensures u in Nodes(edges) && v in Nodes(edges)
  {}

  /** With the queue empty, the new nodes are exactly those connected to the seed. */
  lemma FloodDone(edges: EdgeList, before: map<int, nat>, next: nat, seed: int, visited: map<int, nat>)
    requires Partitioned(edges, before, next) && seed !in before
    requires Flooding(edges, before, next, seed, [], visited)
    ensures Partitioned(edges, visited, next + 1)
    ensures before.Keys <= visited.Keys && seed in visited
  {
    hide Nodes, Connected;
    forall u, v | u in visited && v in visited
      ensures visited[u] == visited[v] <==> Connected(edges, u, v)
    {
      if u !in before && v !in before {
        ConnectedSym(edges, seed, u);
        ConnectedTrans(edges, u, seed, v);
      } else if Connected(edges, u, v) {
        ConnectedStaysInside(edges, before.Keys, u, v);
      }
    }
    assert visited[seed] == next;
    assert UsedId(visited, next);
    forall c: nat | c < next ensures UsedId(visited, c) {
      assert UsedId(before, c);
      var u :| u in before && before[u] == c;
      assert visited[u] == c;
    }
  }

  // ── Sizes ───────────────────────────────────────────────────────────────

  function Members(components: map<int, nat>, c: nat): set<int> {
    set n | n in components && components[n] == c
  }

  ghost function SizeOf(components: map<int, nat>): nat -> int {
    (c: nat) => |Members(components, c)|
  }

  ghost function Without(components: map<int, nat>, c: nat): (smaller: map<int, nat>)
    ensures forall n :: n in smaller <==> n in components && components[n] != c
    ensures forall n :: n in smaller ==> smaller[n] == components[n]
    ensures |components| == |smaller| + |Members(components, c)|
  {
    var smaller := map n | n in components && components[n] != c :: components[n];
    assert components.Keys == smaller.Keys + Members(components, c);
    assert |components.Keys| == |smaller.Keys| + |Members(components, c)|;
    smaller
  }

  /** The sizes of the classes of any labelling add up to the number of labelled nodes. */
  lemma {:induction false} SizesSumToNodes(components: map<int, nat>, ids: set<nat>)
    requires forall n :: n in components ==> components[n] in ids
    ensures Total(ids, SizeOf(components)) == |components|
  {
    if ids == {} {
      SomeMember(components.Keys);
    } else {
      var c :| c in ids;
      var smaller := Without(components, c);
      SizesSumToNodes(smaller, ids - {c});
      TotalRemove(ids, c, SizeOf(components));
      forall k | k in ids - {c} ensures SizeOf(components)(k) == SizeOf(smaller)(k) {
        assert Members(components, k) == Members(smaller, k);
      }
      TotalCong(ids - {c}, SizeOf(components), SizeOf(smaller));
    }
  }

  method ComponentSizes(components: map<int, nat>) returns (sizes: map<nat, nat>)
    ensures forall c :: c in sizes <==> Members(components, c) != {}
    ensures forall c :: c in sizes ==> sizes[c] == |Members(components, c)|
    ensures Total(sizes.Keys, (c: nat) => if c in sizes then sizes[c] else 0) == |components|
  {
    sizes := map[];
    var rest := components.Keys;
    ghost var done: map<int, nat> := map[];
    while rest != {}
      invariant rest <= components.Keys
      invariant done == map n | n in components && n !in rest :: components[n]
      invariant forall c :: c in sizes <==> Members(done, c) != {}
      invariant forall c :: c in sizes ==> sizes[c] == |Members(done, c)|
      decreases rest
    {
      SomeMember(rest);
      var n :| n in rest;
      var c := components[n];
      ghost var was := done;
      done, rest := done[n := c], rest - {n};
      assert Members(done, c) == Members(was, c) + {n};
      assert forall k :: k != c ==> Members(done, k) == Members(was, k);
      sizes := sizes[c := (if c in sizes then sizes[c] else 0) + 1];
    }
    assert done == components;
    forall n | n in components ensures components[n] in sizes {
      assert n in Members(components, components[n]);
    }
    SizesSumToNodes(components, sizes.Keys);
    TotalCong(sizes.Keys, SizeOf(components), (c: nat) => if c in sizes then sizes[c] else 0);
  }
}
