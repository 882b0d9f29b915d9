/** The track graph as an arena, standing for the petgraph `DiGraph` used in
    src/control/rail_system/railroad.rs: nodes are addressed by their index
    in `nodes`, edges by their index in `edges`, and every edge carries the
    rails between its ends. Edges are never removed, so indices are
    stable. */
module TrackGraph {
  import opened Primitives
  import opened Geometry
  import opened Elements

  datatype Edge = Edge(from: nat, to: nat, rails: seq<Rail>)

  datatype Graph = Graph(nodes: seq<Node>, edges: seq<Edge>)

  /** Every edge joins two existing nodes. */
  predicate EdgesInRange(g: Graph)
  {
    forall i :: 0 <= i < |g.edges| ==> g.edges[i].from < |g.nodes| && g.edges[i].to < |g.nodes|
  }

  /** Number of edges ending in `n`. */
  function CountInto(edges: seq<Edge>, n: nat): nat
    decreases |edges|
  {
    if edges == [] then 0
    else CountInto(edges[..|edges| - 1], n) + (if edges[|edges| - 1].to == n then 1 else 0)
  }

  /** Number of edges starting in `n`. */
  function CountOutOf(edges: seq<Edge>, n: nat): nat
    decreases |edges|
  {
    if edges == [] then 0
    else CountOutOf(edges[..|edges| - 1], n) + (if edges[|edges| - 1].from == n then 1 else 0)
  }

  /** `neighbors_directed(n, dir).count()`: a self-loop counts once in each
      direction. */
  function Degree(g: Graph, n: nat, dir: EdgeDir): nat
  {
    match dir
    case Incoming => CountInto(g.edges, n)
    case Outgoing => CountOutOf(g.edges, n)
  }

  /** Two edge lists that differ at most in their rails. */
  predicate SameEnds(a: seq<Edge>, b: seq<Edge>)
  {
    |a| == |b| && forall i :: 0 <= i < |a| ==> a[i].from == b[i].from && a[i].to == b[i].to
  }

  lemma {:induction false} SameEndsSameDegrees(a: seq<Edge>, b: seq<Edge>, n: nat)
    requires SameEnds(a, b)
    ensures CountInto(a, n) == CountInto(b, n) && CountOutOf(a, n) == CountOutOf(b, n)
    decreases |a|
  {
    if a != [] {
      SameEndsSameDegrees(a[..|a| - 1], b[..|b| - 1], n);
    }
  }

  lemma AppendCounts(edges: seq<Edge>, e: Edge, n: nat)
    ensures CountInto(edges + [e], n) == CountInto(edges, n) + (if e.to == n then 1 else 0)
    ensures CountOutOf(edges + [e], n) == CountOutOf(edges, n) + (if e.from == n then 1 else 0)
  {
    assert (edges + [e])[..|edges|] == edges;
  }

  /** `add_node`: the new node's index is the old node count. */
  function AddNode(g: Graph, n: Node): (r: (Graph, nat))
    ensures r.1 == |g.nodes| && r.0.nodes == g.nodes + [n] && r.0.edges == g.edges
  {
    (g.(nodes := g.nodes + [n]), |g.nodes|)
  }

  /** `find_edge(from, to)`: an edge from `from` to `to`, or `None` when
      there is none. petgraph returns the newest such edge; the railroad
      adds edges only through `update_edge`, which never adds a parallel
      one, so there is at most one. */
  function FindEdge(edges: seq<Edge>, from: nat, to: nat): (r: Option<nat>)
    ensures r.Some? ==> r.value < |edges| && edges[r.value].from == from && edges[r.value].to == to
    ensures r.None? ==> forall i :: 0 <= i < |edges| ==> !(edges[i].from == from && edges[i].to == to)
    decreases |edges|
  {
    if edges == [] then None
    else if edges[0].from == from && edges[0].to == to then Some(0)
    else
      match FindEdge(edges[1..], from, to)
      case Some(i) => Some(i + 1)
      case None => None
  }

  /** `update_edge(from, to, rails)`: replace the rails of an existing edge
      from `from` to `to`, or append a new edge. Returns the edge index. */
  function UpdateEdge(g: Graph, from: nat, to: nat, rails: seq<Rail>): (r: (Graph, nat))
    ensures r.0.nodes == g.nodes
    ensures r.1 < |r.0.edges| && r.0.edges[r.1] == Edge(from, to, rails)
    ensures FindEdge(g.edges, from, to).Some? ==>
      r.1 == FindEdge(g.edges, from, to).value && SameEnds(r.0.edges, g.edges)
      && forall i :: 0 <= i < |g.edges| && i != r.1 ==> r.0.edges[i] == g.edges[i]
    ensures FindEdge(g.edges, from, to).None? ==> r.0.edges == g.edges + [Edge(from, to, rails)] && r.1 == |g.edges|
  {
    match FindEdge(g.edges, from, to)
    case Some(i) => (g.(edges := g.edges[i := Edge(from, to, rails)]), i)
    case None => (g.(edges := g.edges + [Edge(from, to, rails)]), |g.edges|)
  }

  /** An update raises the out-degree of `from` and the in-degree of `to` by
      one if it adds an edge, and changes no other degree. */
  lemma UpdateEdgeDegrees(g: Graph, from: nat, to: nat, rails: seq<Rail>, n: nat)
    ensures
      var added := if FindEdge(g.edges, from, to).None? then 1 else 0;
      var h := UpdateEdge(g, from, to, rails).0;
      Degree(h, n, Incoming) == Degree(g, n, Incoming) + (if to == n then added else 0)
      && Degree(h, n, Outgoing) == Degree(g, n, Outgoing) + (if from == n then added else 0)
  {
    var h := UpdateEdge(g, from, to, rails).0;
    if FindEdge(g.edges, from, to).Some? {
      SameEndsSameDegrees(h.edges, g.edges, n);
    } else {
      AppendCounts(g.edges, Edge(from, to, rails), n);
    }
  }

  lemma UpdateEdgeInRange(g: Graph, from: nat, to: nat, rails: seq<Rail>)
    requires EdgesInRange(g) && from < |g.nodes| && to < |g.nodes|
    ensures EdgesInRange(UpdateEdge(g, from, to, rails).0)
  {
  }

  /** Sources of the edges into `n`, newest edge first as petgraph lists
      them. */
  function InNeighbours(edges: seq<Edge>, n: nat): (r: seq<nat>)
    ensures |r| == CountInto(edges, n)
    ensures forall x :: x in r <==> exists i :: 0 <= i < |edges| && edges[i].to == n && edges[i].from == x
    decreases |edges|
  {
    if edges == [] then []
    else
      var last := edges[|edges| - 1];
      var rest := InNeighbours(edges[..|edges| - 1], n);
      assert forall i :: 0 <= i < |edges| - 1 ==> edges[..|edges| - 1][i] == edges[i];
      if last.to == n then [last.from] + rest else rest
  }

  /** Targets of the edges out of `n`, newest edge first. */
  function OutNeighbours(edges: seq<Edge>, n: nat): (r: seq<nat>)
    ensures |r| == CountOutOf(edges, n)
    ensures forall x :: x in r <==> exists i :: 0 <= i < |edges| && edges[i].from == n && edges[i].to == x
    decreases |edges|
  {
    if edges == [] then []
    else
      var last := edges[|edges| - 1];
      var rest := OutNeighbours(edges[..|edges| - 1], n);
      assert forall i :: 0 <= i < |edges| - 1 ==> edges[..|edges| - 1][i] == edges[i];
      if last.from == n then [last.to] + rest else rest
  }

  // ---------------------------------------------------------------------
  // Backward reachability (`get_signal_of_block`)
  // ---------------------------------------------------------------------

  /** Nodes with an edge into `v`. */
  function Preds(g: Graph, v: nat): set<nat>
  {
    set i | 0 <= i < |g.edges| && g.edges[i].to == v :: g.edges[i].from
  }

  /** `p` walks the graph against its edges, starting at `start`. */
  predicate BackPath(g: Graph, p: seq<nat>, start: nat)
  {
    |p| > 0 && p[0] == start && forall i :: 0 <= i < |p| - 1 ==> p[i + 1] in Preds(g, p[i])
  }

  /** The node indices below `n`. */
  function Range(n: nat): (r: set<nat>)
    ensures forall x: nat :: x in r <==> x < n
    ensures |r| == n
  {
    if n == 0 then {} else Range(n - 1) + {n - 1}
  }

  lemma SubsetCard(a: set<nat>, b: set<nat>)
    requires a <= b
    ensures |a| <= |b| && (a != b ==> |a| < |b|)
  {
    assert b == a + (b - a);
    if a != b {
      var x :| x in b - a;
    }
  }

  /** A set closed under predecessors holds every node a backward path from
      one of its members reaches. */
  lemma {:induction false} ClosedSetHoldsPath(g: Graph, visited: set<nat>, p: seq<nat>, start: nat)
    requires BackPath(g, p, start) && start in visited
    requires forall v :: v in visited ==> Preds(g, v) <= visited
    ensures p[|p| - 1] in visited
    decreases |p|
  {
    if |p| > 1 {
      var q := p[..|p| - 1];
      assert BackPath(g, q, start);
      ClosedSetHoldsPath(g, visited, q, start);
      assert p[|p| - 1] in Preds(g, p[|p| - 2]);
    }
  }

  /** Every visited node was reached by a recorded backward path. */
  predicate Reached(g: Graph, start: nat, visited: set<nat>, paths: map<nat, seq<nat>>)
  {
    forall v :: v in visited ==> v in paths && BackPath(g, paths[v], start) && paths[v][|paths[v]| - 1] == v
  }

  /** Every node of `done` is no signal and has all its predecessors
      visited. */
  predicate Settled(g: Graph, visited: set<nat>, done: set<nat>)
  {
    forall v :: v in done ==> !SignalAt(g.nodes, v) && Preds(g, v) <= visited
  }

  /** Visiting a predecessor of a reached node keeps every visited node
      reached. */
  lemma ReachedExtend(g: Graph, start: nat, visited: set<nat>, paths: map<nat, seq<nat>>, n: nat, x: nat)
    requires Reached(g, start, visited, paths) && n in visited && x in Preds(g, n)
    ensures Reached(g, start, visited + {x}, paths[x := paths[n] + [x]])
  {
    var p := paths[n] + [x];
    assert BackPath(g, p, start) by {
      forall i | 0 <= i < |p| - 1
        ensures p[i + 1] in Preds(g, p[i])
      {
        if i < |p| - 2 {
          assert p[i] == paths[n][i] && p[i + 1] == paths[n][i + 1];
        }
      }
    }
  }

  /** Loop invariant of the breadth-first search: the visited nodes are the
      settled ones and the queued ones. */
  predicate SearchInvariant(g: Graph, start: nat, visited: set<nat>, done: set<nat>, queue: seq<nat>, paths: map<nat, seq<nat>>)
  {
    && start in visited
    && visited <= Range(|g.nodes|)
    && (forall v :: v in queue ==> v in visited)
    && (forall v :: v in visited ==> v in done || v in queue)
    && done <= visited
    && Reached(g, start, visited, paths)
    && Settled(g, visited, done)
  }

  /** Loop invariant of `EnqueuePreds` after the first `j` predecessors:
      the visited set only grew, within the graph, with recorded paths; the
      queue only grew, by newly visited nodes; the first `j` predecessors
      are visited. */
  predicate EnqueueInvariant(g: Graph, start: nat, visited: set<nat>, queue: seq<nat>, preds: seq<nat>, j: nat,
                             visited': set<nat>, queue': seq<nat>, paths': map<nat, seq<nat>>)
  {
    && j <= |preds|
    && visited <= visited' <= Range(|g.nodes|)
    && Reached(g, start, visited', paths')
    && (forall v :: v in queue ==> v in queue')
    && (forall v :: v in queue' ==> v in queue || v in visited')
    && (forall v :: v in visited' ==> v in visited || v in queue')
    && (visited' == visited ==> queue' == queue)
    && (forall k :: 0 <= k < j ==> preds[k] in visited')
  }

  /** Handling one more predecessor keeps the invariant: an unvisited one is
      marked, queued and given a path through `n`. */
  lemma EnqueueStep(g: Graph, start: nat, n: nat, visited: set<nat>, queue: seq<nat>, preds: seq<nat>, j: nat,
                    visited': set<nat>, queue': seq<nat>, paths': map<nat, seq<nat>>)
    requires EnqueueInvariant(g, start, visited, queue, preds, j, visited', queue', paths')
    requires j < |preds| && n in visited && preds[j] in Preds(g, n) && preds[j] < |g.nodes|
    ensures preds[j] in visited' ==>
      EnqueueInvariant(g, start, visited, queue, preds, j + 1, visited', queue', paths')
    ensures preds[j] !in visited' ==>
      EnqueueInvariant(g, start, visited, queue, preds, j + 1,
                       visited' + {preds[j]}, queue' + [preds[j]], paths'[preds[j] := paths'[n] + [preds[j]]])
  {
    if preds[j] !in visited' {
      ReachedExtend(g, start, visited', paths', n, preds[j]);
    }
  }

  /** The inner loop of one search step: mark and queue every predecessor of
      `n` not visited yet. */
  method EnqueuePreds(g: Graph, start: nat, n: nat, visited: set<nat>, queue: seq<nat>, ghost paths: map<nat, seq<nat>>)
    returns (visited': set<nat>, queue': seq<nat>, ghost paths': map<nat, seq<nat>>)
    requires EdgesInRange(g) && n in visited && visited <= Range(|g.nodes|)
    requires Reached(g, start, visited, paths)
    ensures visited <= visited' <= Range(|g.nodes|)
    ensures Preds(g, n) <= visited'
    ensures Reached(g, start, visited', paths')
    ensures forall v :: v in queue ==> v in queue'
    ensures forall v :: v in queue' ==> v in queue || v in visited'
    ensures forall v :: v in visited' ==> v in visited || v in queue'
    ensures visited' == visited ==> queue' == queue
  {
    var preds := InNeighbours(g.edges, n);
    visited', queue', paths' := visited, queue, paths;
    var j := 0;
    while j < |preds|
      invariant EnqueueInvariant(g, start, visited, queue, preds, j, visited', queue', paths')
      decreases |preds| - j
    {
      var x := preds[j];
      InNeighboursArePreds(g, n, x);
      EnqueueStep(g, start, n, visited, queue, preds, j, visited', queue', paths');
      if x !in visited' {
        paths' := paths'[x := paths'[n] + [x]];
        visited' := visited' + {x};
        queue' := queue' + [x];
      }
      j := j + 1;
    }
    forall x | x in Preds(g, n)
      ensures x in visited'
    {
      InNeighboursArePreds(g, n, x);
    }
  }

  /** The in-neighbour list holds exactly the predecessors. */
  lemma InNeighboursArePreds(g: Graph, n: nat, x: nat)
    ensures x in InNeighbours(g.edges, n) <==> x in Preds(g, n)
  {
    if x in Preds(g, n) {
      var i :| 0 <= i < |g.edges| && g.edges[i].to == n && g.edges[i].from == x;
    }
  }

  /** Settling the head `n` of the queue, which is no signal, and queueing
      its unvisited predecessors keeps the search invariant. */
  lemma SearchStep(g: Graph, start: nat, n: nat, visited: set<nat>, done: set<nat>, rest: seq<nat>,
                   visited': set<nat>, queue': seq<nat>, paths': map<nat, seq<nat>>)
    requires && start in visited && visited <= Range(|g.nodes|)
             && n in visited && !SignalAt(g.nodes, n) && done <= visited
             && (forall v :: v in rest ==> v in visited)
             && (forall v :: v in visited ==> v in done || v == n || v in rest)
             && Settled(g, visited, done)
    requires visited <= visited' <= Range(|g.nodes|)
    requires Preds(g, n) <= visited'
    requires Reached(g, start, visited', paths')
    requires forall v :: v in rest ==> v in queue'
    requires forall v :: v in queue' ==> v in rest || v in visited'
    requires forall v :: v in visited' ==> v in visited || v in queue'
    ensures SearchInvariant(g, start, visited', done + {n}, queue', paths')
  {
  }

  /** `Railroad::get_signal_of_block`: breadth-first search on the reversed
      graph from `block`, returning the first signal node visited (`block`
      itself included). */
  method SignalOfBlock(g: Graph, block: nat) returns (r: Option<nat>)
    requires EdgesInRange(g) && block < |g.nodes|
    ensures r.Some? ==> SignalAt(g.nodes, r.value)
    ensures r.Some? ==> exists p :: BackPath(g, p, block) && p[|p| - 1] == r.value
    ensures r.None? ==> forall p :: BackPath(g, p, block) ==> !SignalAt(g.nodes, p[|p| - 1])
  {
    var visited: set<nat> := {block};
    var queue: seq<nat> := [block];
    ghost var done: set<nat> := {};
    ghost var paths: map<nat, seq<nat>> := map[block := [block]];
    while queue != []
      invariant SearchInvariant(g, block, visited, done, queue, paths)
      decreases |g.nodes| - |visited|, |queue|
    {
      var n := queue[0];
      queue := queue[1..];
      if SignalAt(g.nodes, n) {
        assert BackPath(g, paths[n], block);
        return Some(n);
      }
      ghost var before, rest, doneBefore := visited, queue, done;
      visited, queue, paths := EnqueuePreds(g, block, n, visited, queue, paths);
      done := done + {n};
      SearchStep(g, block, n, before, doneBefore, rest, visited, queue, paths);
      SubsetCard(before, visited);
      SubsetCard(visited, Range(|g.nodes|));
    }
    forall p | BackPath(g, p, block)
      ensures !SignalAt(g.nodes, p[|p| - 1])
    {
      ClosedSetHoldsPath(g, visited, p, block);
    }
    return None;
  }
}
