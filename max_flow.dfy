/**
 * `MaxFlowNetwork` of task1_max_flow.py:10-120: a capacitated directed graph
 * built edge by edge, and the Edmonds-Karp maximum-flow computation over a
 * residual copy of it.
 */
module MaxFlow {
  import opened Seqs
  import opened FlowGraph
  import opened BfsSearch
  import opened Augmenting

  /** The running minimum of the bottleneck loop, seeded with `float('inf')`. */
  datatype Bound = Infinite | Finite(n: int)

  /**
   * One neighbour of the scan in `bfs` (task1_max_flow.py:55-60): an
   * unvisited `neighbor` reached over positive residual capacity is marked
   * visited, appended to the queue and given `node` as parent, and reaching
   * `sink` is reported; any other neighbour changes nothing. The new node's
   * depth is one more than `node`'s, which keeps the queue in levels.
   */
  method Relax(g: Graph, source: Node, sink: Node, node: Node, neighbor: Node, capacity: int,
               visited0: set<Node>, queue0: seq<Node>, parent0: map<Node, Node>,
               ghost queued0: set<Node>, ghost dist0: map<Node, nat>)
    returns (reached: bool, visited: set<Node>, queue: seq<Node>, parent: map<Node, Node>,
             ghost queued: set<Node>, ghost dist: map<Node, nat>)
    requires WellShaped(g) && capacity == Cap(g, node, neighbor)
    requires Searching(g, source, visited0, queue0, queued0, parent0, dist0)
    requires (source != sink ==> sink !in visited0) && queued0 <= visited0 && node in visited0 && node !in queued0
    requires node in dist0 && AtLevel(g, source, node, dist0[node], visited0, queue0, queued0, dist0)
    ensures if neighbor !in visited0 && capacity > 0 then
              visited == visited0 + {neighbor} && queue == queue0 + [neighbor] &&
              parent == parent0[neighbor := node] && reached == (neighbor == sink)
            else
              visited == visited0 && queue == queue0 && parent == parent0 && !reached
    ensures Searching(g, source, visited, queue, queued, parent, dist)
    ensures Grows(g, node, visited0, queue0, queued0, visited, queue, queued)
    ensures reached ==> source != sink && sink in visited
    ensures !reached ==> source != sink ==> sink !in visited
    ensures capacity > 0 ==> neighbor in visited
    ensures Extends(node, visited0, queue0, parent0, visited, queue, parent)
    ensures AtLevel(g, source, node, dist0[node], visited, queue, queued, dist)
  {
    visited, queue, parent, queued, dist := visited0, queue0, parent0, queued0, dist0;
    reached := false;
    if neighbor !in visited && capacity > 0 {
      Visit(g, source, node, neighbor, visited, queue, queued, parent, dist);
      VisitAtLevel(g, source, node, neighbor, visited, queue, queued, parent, dist);
      UnvisitedHasNoParent(g, source, visited, parent, dist, neighbor);
      VisitExtends(node, neighbor, visited, queue, parent);
      dist := dist[neighbor := dist[node] + 1];
      visited := visited + {neighbor};
      queue := queue + [neighbor];
      queued := queued + {neighbor};
      parent := parent[neighbor := node];
      reached := neighbor == sink;
    }
  }

  /**
   * The neighbour scan of `bfs` (task1_max_flow.py:54-60): every neighbour of
   * `node`, in insertion order, that is unvisited and has positive residual
   * capacity is marked visited, appended to the queue and given `node` as
   * parent; the scan stops as soon as that neighbour is `sink`. Earlier
   * queue entries and parent links stay. `queued` (the elements of `queue`)
   * and `dist` (each visited node's depth in the parent tree) are the
   * proof's bookkeeping.
   */
  method ScanNeighbours(g: Graph, source: Node, sink: Node, node: Node,
                        visited0: set<Node>, queue0: seq<Node>, parent0: map<Node, Node>,
                        ghost queued0: set<Node>, ghost dist0: map<Node, nat>)
    returns (reached: bool, visited: set<Node>, queue: seq<Node>, parent: map<Node, Node>,
             ghost queued: set<Node>, ghost dist: map<Node, nat>)
    requires WellShaped(g)
    requires Searching(g, source, visited0, queue0, queued0, parent0, dist0)
    requires source in visited0 && (source != sink ==> sink !in visited0) && queued0 <= visited0 && node in visited0 && node !in queued0
    requires node in dist0 && AtLevel(g, source, node, dist0[node], visited0, queue0, queued0, dist0)
    ensures Searching(g, source, visited, queue, queued, parent, dist)
    ensures Grows(g, node, visited0, queue0, queued0, visited, queue, queued)
    ensures reached ==> source != sink && sink in visited
    ensures !reached ==> (source != sink ==> sink !in visited) && forall v :: Cap(g, node, v) > 0 ==> v in visited
    ensures Extends(node, visited0, queue0, parent0, visited, queue, parent)
    ensures AtLevel(g, source, node, dist0[node], visited, queue, queued, dist)
  {
    visited, queue, parent, queued, dist := visited0, queue0, parent0, queued0, dist0;
    reached := false;
    var row := RowOf(g, node);
    var i := 0;
    while i < |row.order| && !reached
      invariant 0 <= i <= |row.order|
      invariant Searching(g, source, visited, queue, queued, parent, dist)
      invariant Grows(g, node, visited0, queue0, queued0, visited, queue, queued)
      invariant reached ==> source != sink && sink in visited
      invariant !reached ==> source != sink ==> sink !in visited
      invariant !reached ==> Scanned(g, node, row.order, i, visited)
      invariant Extends(node, visited0, queue0, parent0, visited, queue, parent)
      invariant AtLevel(g, source, node, dist0[node], visited, queue, queued, dist)
    {
      var neighbor := row.order[i];
      assert RowOK(row);
      var capacity := row.cap[neighbor];
      assert node in g && Cap(g, node, neighbor) == capacity;
      ghost var visited1, queue1, queued1, parent1 := visited, queue, queued, parent;
      reached, visited, queue, parent, queued, dist :=
        Relax(g, source, sink, node, neighbor, capacity, visited, queue, parent, queued, dist);
      GrowsTrans(g, node, visited0, queue0, queued0, visited1, queue1, queued1, visited, queue, queued);
      ExtendsTrans(node, visited0, queue0, parent0, visited1, queue1, parent1, visited, queue, parent);
      if !reached {
        ScannedStep(g, node, row.order, i, visited1, visited);
      }
      i := i + 1;
    }
    if !reached {
      assert RowOK(row);
      ScannedAll(g, node, visited);
    }
  }

  /**
   * `bfs` (task1_max_flow.py:36-62): breadth-first search from `source` over
   * edges of positive capacity, neighbours in insertion order, stopping as soon
   * as `sink` is reached. The `parent` dict, which the caller clears before
   * every call, is returned. `path` is the proof's witness: the path the parent
   * links spell out from `sink` back to `source`; being breadth-first, it is a
   * shortest augmenting path. `enqueued` logs every node in the order it was
   * appended to the queue, and no node appears in it twice.
   */
  method Bfs(g: Graph, source: Node, sink: Node)
    returns (found: bool, parent: map<Node, Node>, ghost path: seq<Node>, ghost enqueued: seq<Node>)
    requires WellShaped(g)
    ensures found ==> IsAugmentingPath(g, path, source, sink) && Follows(parent, path)
    ensures found ==> forall p :: IsAugmentingPath(g, p, source, sink) ==> |path| <= |p|
    ensures !found ==> NoAugmentingPath(g, source, sink)
    ensures source == sink ==> !found
    ensures Distinct(enqueued) && |enqueued| >= 1 && enqueued[0] == source
  {
    var visited: set<Node> := {source};
    var queue: seq<Node> := [source];
    parent := map[];
    ghost var queued: set<Node> := {source};  // the elements of `queue`
    ghost var dist: map<Node, nat> := map[source := 0];  // depth in the parent tree
    enqueued := [source];
    while queue != []
      invariant Searching(g, source, visited, queue, queued, parent, dist)
      invariant (source != sink ==> sink !in visited) && queued <= visited
      invariant forall u, v :: u in visited && u !in queued && Cap(g, u, v) > 0 ==> v in visited
      invariant DistLowerBound(g, source, visited, dist)
      invariant queue != [] ==> queue[0] in dist && Levels(queue, dist, dist[queue[0]])
      invariant Distinct(enqueued) && forall k :: 0 <= k < |enqueued| ==> enqueued[k] in visited
      invariant |enqueued| >= 1 && enqueued[0] == source
      decreases g.Keys - visited, |queue|
    {
      var node := queue[0];
      Dequeue(g, source, visited, queue, queued, parent, dist);
      LevelsTail(queue, dist, dist[node]);
      queue := queue[1..];
      queued := queued - {node};
      ghost var visited1, queue1 := visited, queue;
      var reached;
      reached, visited, queue, parent, queued, dist :=
        ScanNeighbours(g, source, sink, node, visited, queue, parent, queued, dist);
      EnqueueLog(enqueued, visited1, queue1, visited, queue);
      enqueued := enqueued + queue[|queue1|..];
      if reached {
        found := true;
        path := ShortestPath(g, source, visited, parent, dist, sink);
        return;
      }
      if queue != [] {
        LevelsRebase(queue, dist, dist[node]);
      }
    }
    found, path := false, [];
    forall p | IsAugmentingPath(g, p, source, sink) ensures false {
      ClosedHoldsPath(g, visited, p);
    }
  }

  /**
   * The bottleneck loop of `edmonds_karp` (task1_max_flow.py:95-100): the
   * walk from `sink` back to `source` through `parent` takes the minimum of
   * the residual capacities it passes, starting from infinity. `path` is the
   * path the walk follows, known to the proof only.
   */
  method Bottleneck(r: Graph, parent: map<Node, Node>, source: Node, sink: Node, ghost path: seq<Node>)
    returns (pathFlow: int)
    requires IsAugmentingPath(r, path, source, sink) && Follows(parent, path)
    ensures pathFlow == PathMin(r, path, 0) && pathFlow > 0
    ensures forall i :: 0 <= i < |path| - 1 ==> pathFlow <= Cap(r, path[i], path[i + 1])
    ensures exists i :: 0 <= i < |path| - 1 && pathFlow == Cap(r, path[i], path[i + 1])
  {
    var bound := Infinite;
    var s := sink;
    ghost var k := |path| - 1;
    while s != source
      invariant 0 <= k < |path| && s == path[k]
      invariant if k == |path| - 1 then bound == Infinite else bound == Finite(PathMin(r, path, k))
      decreases k
    {
      assert k > 0;
      var p := parent[s];
      assert p == path[k - 1] && Cap(r, p, s) > 0;
      var c := r[p].cap[s];
      bound := Finite(match bound case Infinite => c case Finite(n) => Min(n, c));
      s, k := p, k - 1;
    }
    assert k == 0;
    pathFlow := bound.n;
    var j := PathMinIsMinimum(r, path, 0);
  }

  /**
   * The update loop of `edmonds_karp` (task1_max_flow.py:102-111): walking
   * back from `sink`, each path edge `(u, v)` loses `pathFlow` and its
   * reverse gains it, and the flow entry of `(u, v)` is set to the new
   * reverse residual when that is positive and `original` has a positive
   * capacity on `(u, v)`. Entries of earlier rounds that this round does not
   * overwrite stay as they were.
   */
  method Augment(residual: Graph, original: Graph, flow0: FlowMap, parent: map<Node, Node>,
                 source: Node, sink: Node, pathFlow: int, ghost path: seq<Node>)
    returns (r: Graph, flow: FlowMap)
    requires WellShaped(residual)
    requires IsAugmentingPath(residual, path, source, sink) && Follows(parent, path)
    ensures IsPush(residual, r, EdgesOf(path), pathFlow)
    ensures RecordsPush(flow0, flow, original, r, EdgesOf(path))
  {
    r, flow := residual, flow0;
    var v := sink;
    ghost var k := |path| - 1;
    assert EdgesFrom(path, k) == {};
    while v != source
      invariant 0 <= k < |path| && v == path[k]
      invariant IsPush(residual, r, EdgesFrom(path, k), pathFlow)
      invariant RecordsPush(flow0, flow, original, r, EdgesFrom(path, k))
      decreases k
    {
      assert k > 0;
      var u := parent[v];
      assert u == path[k - 1] && Cap(residual, u, v) > 0;
      EdgesFromStep(path, k - 1);
      ghost var before := r;
      r := Adjust(r, u, v, -pathFlow);
      r := Adjust(r, v, u, pathFlow);
      PushStep(residual, before, EdgesFrom(path, k), pathFlow, u, v);
      RecordStep(flow0, flow, original, before, r, EdgesFrom(path, k), u, v);
      if Cap(r, v, u) > 0 && Cap(original, u, v) > 0 {
        flow := SetFlow(flow, u, v, Cap(r, v, u));
      }
      v, k := u, k - 1;
    }
    assert k == 0;
  }

  /**
   * One pass of the loop of `edmonds_karp` (task1_max_flow.py:88-113) on
   * the residual table `residual`: search for a path; when there is none,
   * report it; otherwise push the bottleneck along the path, record the
   * flow entries, and return the new tables. `path` is the path found,
   * known to the proof only.
   */
  method Round(original: Graph, residual: Graph, flow0: FlowMap, source: Node, sink: Node)
    returns (found: bool, pathFlow: int, r: Graph, flow: FlowMap, ghost path: seq<Node>)
    requires WellShaped(residual) && NonNegative(residual)
    requires SameShape(original, residual) && PairSums(original, residual) && FlowBounded(original, flow0)
    ensures !found ==> NoAugmentingPath(residual, source, sink)
    ensures source == sink ==> !found
    ensures found ==> IsAugmentingPath(residual, path, source, sink) && pathFlow == PathMin(residual, path, 0) && pathFlow > 0
    ensures found ==> forall p :: IsAugmentingPath(residual, p, source, sink) ==> |path| <= |p|
    ensures found ==> IsPush(residual, r, EdgesOf(path), pathFlow) && RecordsPush(flow0, flow, original, r, EdgesOf(path))
    ensures found ==> WellShaped(r) && NonNegative(r) && SameShape(original, r) && PairSums(original, r) && FlowBounded(original, flow)
    ensures found ==> OutSum(r, source) == OutSum(residual, source) - pathFlow
  {
    var parent;
    ghost var enqueued;
    found, parent, path, enqueued := Bfs(residual, source, sink);
    if !found {
      return found, 0, residual, flow0, path;
    }
    pathFlow := Bottleneck(residual, parent, source, sink, path);
    r, flow := Augment(residual, original, flow0, parent, source, sink, pathFlow, path);
    RoundKeeps(original, residual, r, flow0, flow, path, pathFlow, source, sink);
  }

  /**
   * `MaxFlowNetwork`: the capacity table `graph` and the set `nodes` of
   * every endpoint ever added. The table stays well-formed and
   * non-negative, and its nodes are exactly `nodes`.
   */
  class MaxFlowNetwork {
    var graph: Graph
    var nodes: set<Node>

    ghost predicate Valid()
      reads this
    {
      WellShaped(graph) && NonNegative(graph) && graph.Keys == nodes
    }

    /** `__init__` (task1_max_flow.py:13-16): an empty table and no nodes. */
    constructor ()
      ensures Valid() && graph == map[] && nodes == {}
    {
      graph := map[];
      nodes := {};
    }

    /**
     * `add_edge` (task1_max_flow.py:18-34): the forward capacity is set
     * (overwriting an earlier one), both endpoints become nodes, and the
     * reverse entry is created with capacity 0 only when it is missing.
     */
    method AddEdge(fromNode: Node, toNode: Node, capacity: nat)
      requires Valid()
      modifies this
      ensures Valid()
      ensures graph == WithEdge(old(graph), fromNode, toNode, capacity)
      ensures nodes == old(nodes) + {fromNode, toNode}
    {
      WithEdgeKeepsShape(graph, fromNode, toNode, capacity);
      graph := SetForward(graph, fromNode, toNode, capacity);
      nodes := nodes + {fromNode};
      nodes := nodes + {toNode};
      graph := EnsureReverse(graph, fromNode, toNode);
    }

    /**
     * `edmonds_karp` (task1_max_flow.py:64-120). The stored table is
     * swapped for a residual copy while the search runs and is restored at
     * the end. The loop ends with no augmenting path left in `residual`,
     * which has the original's shape and pair sums; the total is what left
     * `source` in the residual table; every flow entry lies on an edge of
     * positive original capacity and is bounded by the capacities between
     * its endpoints.
     */
    method EdmondsKarp(source: Node, sink: Node) returns (maxFlow: int, flow: FlowMap, ghost residual: Graph)
      requires Valid()
      modifies this
      ensures Valid() && graph == old(graph) && nodes == old(nodes)
      ensures WellShaped(residual) && NonNegative(residual)
      ensures SameShape(graph, residual) && PairSums(graph, residual)
      ensures NoAugmentingPath(residual, source, sink)
      ensures maxFlow == OutSum(graph, source) - OutSum(residual, source)
      ensures 0 <= maxFlow <= OutSum(graph, source)
      ensures FlowBounded(graph, flow)
      ensures forall u, v :: HasFlow(flow, u, v) && Cap(graph, v, u) == 0 ==> flow[u][v] <= Cap(graph, u, v)
      ensures source == sink ==> maxFlow == 0 && flow == map[]
    {
      maxFlow := 0;
      flow := map[];
      var residualGraph := graph;
      var originalGraph := graph;
      while true
        invariant nodes == old(nodes) && originalGraph == old(graph) && WellShaped(originalGraph) && NonNegative(originalGraph) && originalGraph.Keys == nodes
        invariant WellShaped(residualGraph) && NonNegative(residualGraph)
        invariant SameShape(originalGraph, residualGraph) && PairSums(originalGraph, residualGraph)
        invariant maxFlow == OutSum(originalGraph, source) - OutSum(residualGraph, source)
        invariant FlowBounded(originalGraph, flow)
        invariant source == sink ==> maxFlow == 0 && flow == map[]
        decreases OutSum(residualGraph, source)
      {
        OutSumNonNegative(residualGraph, source);
        graph := residualGraph;
        var found, pathFlow, r, flow', path := Round(originalGraph, graph, flow, source, sink);
        if !found {
          break;
        }
        residualGraph, flow := r, flow';
        maxFlow := maxFlow + pathFlow;
      }
      graph := originalGraph;
      residual := residualGraph;
      OutSumNonNegative(residual, source);
    }
  }
}
