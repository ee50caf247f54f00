/** The bookkeeping behind the breadth-first search of the flow network. */
module BfsSearch {
  import opened Seqs
  import opened FlowGraph

  /**
   * The `parent` links of the search form a tree rooted at `source` over the
   * visited nodes: every visited node but `source` has a visited parent
   * joined to it by an edge of positive capacity, one step closer (by the
   * ghost `dist`) to `source`.
   */
  ghost predicate Tree(g: Graph, source: Node, visited: set<Node>, parent: map<Node, Node>, dist: map<Node, nat>) {
    visited <= dist.Keys && source in visited && source !in parent &&
    (forall v :: v in visited && v != source ==> v in parent) &&
    (forall v {:trigger Up(parent, v)} :: v in parent ==>
       v in visited && Up(parent, v) in visited && Cap(g, Up(parent, v), v) > 0 && dist[Up(parent, v)] < dist[v])
  }

  /** Only visited nodes have a parent link. */
  lemma UnvisitedHasNoParent(g: Graph, source: Node, visited: set<Node>, parent: map<Node, Node>,
                             dist: map<Node, nat>, v: Node)
    requires Tree(g, source, visited, parent, dist)
    ensures v !in visited ==> v !in parent
  {
    if v in parent {
      assert Up(parent, v) in visited;
    }
  }

  /** The parent of `v`; quantifiers over the tree hang on this term, so that one link does not pull in the next. */
  ghost function Up(parent: map<Node, Node>, v: Node): Node
    requires v in parent
  {
    parent[v]
  }

  /** Following the parent links back from a visited node spells out a path from `source` to it. */
  lemma {:induction false} ChainTo(g: Graph, source: Node, visited: set<Node>, parent: map<Node, Node>,
                                   dist: map<Node, nat>, v: Node) returns (p: seq<Node>)
    requires Tree(g, source, visited, parent, dist) && v in visited
    ensures |p| >= 1 && p[0] == source && p[|p| - 1] == v && Follows(parent, p)
    ensures forall i :: 0 <= i < |p| ==> p[i] in visited
    ensures forall i, j :: 0 <= i < j < |p| ==> dist[p[i]] < dist[p[j]]
    ensures forall i :: 0 <= i < |p| - 1 ==> Cap(g, p[i], p[i + 1]) > 0
    ensures |p| - 1 <= dist[v]
    decreases dist[v]
  {
    if v == source {
      p := [source];
    } else {
      var u := Up(parent, v);
      var q := ChainTo(g, source, visited, parent, dist, u);
      p := q + [v];
      assert forall i :: 0 <= i < |q| ==> dist[p[i]] <= dist[u] by {
        forall i | 0 <= i < |q| ensures dist[p[i]] <= dist[u] {
          assert i == |q| - 1 || dist[q[i]] < dist[q[|q| - 1]];
        }
      }
    }
  }

  /** The parent links lead back from a visited `v` other than `source` along an augmenting path. */
  lemma TreePath(g: Graph, source: Node, visited: set<Node>, parent: map<Node, Node>, dist: map<Node, nat>, v: Node)
    returns (p: seq<Node>)
    requires Tree(g, source, visited, parent, dist) && v in visited && v != source
    ensures IsAugmentingPath(g, p, source, v) && Follows(parent, p)
    ensures |p| - 1 <= dist[v]
  {
    p := ChainTo(g, source, visited, parent, dist, v);
  }

  /**
   * The bookkeeping of the search: `queue` holds no repeats and its elements
   * are exactly `queued`; the parent links form a tree over the visited nodes.
   */
  ghost predicate Searching(g: Graph, source: Node, visited: set<Node>, queue: seq<Node>,
                            queued: set<Node>, parent: map<Node, Node>, dist: map<Node, nat>) {
    Distinct(queue) && (forall k :: 0 <= k < |queue| ==> queue[k] in queued) && |queued| <= |queue| &&
    Tree(g, source, visited, parent, dist)
  }

  /** Taking the head off the queue keeps the bookkeeping. */
  lemma Dequeue(g: Graph, source: Node, visited: set<Node>, queue: seq<Node>,
                queued: set<Node>, parent: map<Node, Node>, dist: map<Node, nat>)
    requires Searching(g, source, visited, queue, queued, parent, dist) && queue != []
    ensures queue[0] in queued
    ensures Searching(g, source, visited, queue[1..], queued - {queue[0]}, parent, dist)
  {
    DistinctTail(queue);
  }

  /** Visiting a new neighbour `nb` of a visited `node` keeps the bookkeeping and leaves fewer nodes unseen. */
  lemma Visit(g: Graph, source: Node, node: Node, nb: Node, visited: set<Node>, queue: seq<Node>,
              queued: set<Node>, parent: map<Node, Node>, dist: map<Node, nat>)
    requires WellShaped(g)
    requires Searching(g, source, visited, queue, queued, parent, dist)
    requires node in visited && queued <= visited && nb !in visited && Cap(g, node, nb) > 0
    ensures Searching(g, source, visited + {nb}, queue + [nb], queued + {nb}, parent[nb := node], dist[nb := dist[node] + 1])
    ensures g.Keys - (visited + {nb}) < g.Keys - visited
  {
    DistinctAppend(queue, nb);
    var parent2, dist2 := parent[nb := node], dist[nb := dist[node] + 1];
    forall v | v in parent2
      ensures v in visited + {nb} && Up(parent2, v) in visited + {nb} && Cap(g, Up(parent2, v), v) > 0 && dist2[Up(parent2, v)] < dist2[v]
    {
      if v != nb {
        assert Up(parent2, v) == Up(parent, v);
      }
    }
    assert HasEdge(g, nb, node);
    assert nb in g.Keys - visited;
  }

  /**
   * What one step of the scan of `node`'s neighbours may do to the search:
   * only add nodes to `visited`, each of them also queued, keep `node`
   * dequeued, and either visit a node of `g` not seen before or leave the
   * queue's length as it was.
   */
  ghost predicate Grows(g: Graph, node: Node, visited0: set<Node>, queue0: seq<Node>, queued0: set<Node>,
                        visited: set<Node>, queue: seq<Node>, queued: set<Node>)
  {
    visited0 <= visited && queued0 <= queued <= visited && visited - visited0 <= queued && node !in queued &&
    (g.Keys - visited < g.Keys - visited0 || (visited == visited0 && |queue| == |queue0|))
  }

  lemma GrowsTrans(g: Graph, node: Node, visited0: set<Node>, queue0: seq<Node>, queued0: set<Node>,
                   visited1: set<Node>, queue1: seq<Node>, queued1: set<Node>,
                   visited: set<Node>, queue: seq<Node>, queued: set<Node>)
    requires Grows(g, node, visited0, queue0, queued0, visited1, queue1, queued1)
    requires Grows(g, node, visited1, queue1, queued1, visited, queue, queued)
    ensures Grows(g, node, visited0, queue0, queued0, visited, queue, queued)
  {
  }

  /** Every one of the first `i` neighbours in `order` that `node` reaches over positive capacity is visited. */
  ghost predicate Scanned(g: Graph, node: Node, order: seq<Node>, i: nat, visited: set<Node>)
    requires i <= |order|
  {
    forall j :: 0 <= j < i && Cap(g, node, order[j]) > 0 ==> order[j] in visited
  }

  /** Scanning one more neighbour, which is visited when reachable, extends `Scanned` by one. */
  lemma ScannedStep(g: Graph, node: Node, order: seq<Node>, i: nat, visited0: set<Node>, visited: set<Node>)
    requires i < |order| && Scanned(g, node, order, i, visited0) && visited0 <= visited
    requires Cap(g, node, order[i]) > 0 ==> order[i] in visited
    ensures Scanned(g, node, order, i + 1, visited)
  {
    forall j | 0 <= j < i + 1 && Cap(g, node, order[j]) > 0 ensures order[j] in visited {
      assert j < i || j == i;
    }
  }

  /** Once the whole row of `node` is scanned, every node it reaches over positive capacity is visited. */
  lemma ScannedAll(g: Graph, node: Node, visited: set<Node>)
    requires RowOK(RowOf(g, node)) && Scanned(g, node, RowOf(g, node).order, |RowOf(g, node).order|, visited)
    ensures forall v :: Cap(g, node, v) > 0 ==> v in visited
  {
    var row := RowOf(g, node);
    forall v | Cap(g, node, v) > 0 ensures v in visited {
      assert v in row.cap;
      var j :| 0 <= j < |row.order| && row.order[j] == v;
    }
  }

  /** `p` is a walk from `source` to `v` over edges of positive capacity; unlike a path, it may repeat nodes. */
  ghost predicate IsPositiveWalk(g: Graph, p: seq<Node>, source: Node, v: Node) {
    |p| >= 1 && p[0] == source && p[|p| - 1] == v &&
    forall i :: 0 <= i < |p| - 1 ==> Cap(g, p[i], p[i + 1]) > 0
  }

  /** Every positive walk from `source` to `v` has at least `d` edges. */
  ghost predicate AtLeast(g: Graph, source: Node, v: Node, d: nat) {
    forall p :: IsPositiveWalk(g, p, source, v) ==> d <= |p| - 1
  }

  /** The depth `dist` of each visited node is the least number of edges on a positive walk to it. */
  ghost predicate DistLowerBound(g: Graph, source: Node, visited: set<Node>, dist: map<Node, nat>) {
    forall v :: v in visited ==> v in dist && AtLeast(g, source, v, dist[v])
  }

  /** The queue is ordered by depth and holds only the depths `d` and `d + 1`. */
  ghost predicate Levels(queue: seq<Node>, dist: map<Node, nat>, d: nat) {
    (forall k :: 0 <= k < |queue| ==> queue[k] in dist && d <= dist[queue[k]] <= d + 1) &&
    forall i, j :: 0 <= i < j < |queue| ==> dist[queue[i]] <= dist[queue[j]]
  }

  /** Every visited node that is neither queued nor `node` has all its positive-capacity neighbours visited. */
  ghost predicate ClosedExcept(g: Graph, visited: set<Node>, queued: set<Node>, node: Node) {
    forall u, w :: u in visited && u !in queued && u != node && Cap(g, u, w) > 0 ==> w in visited
  }

  /** The elements of a queue without repeats, given as a set no larger than it, are exactly the queue's elements. */
  lemma QueuedInQueue(queue: seq<Node>, queued: set<Node>)
    requires Distinct(queue) && (forall k :: 0 <= k < |queue| ==> queue[k] in queued) && |queued| <= |queue|
    ensures forall q :: q in queued ==> q in queue
  {
    DistinctCard(queue);
    var s := set x | x in queue;
    assert s <= queued;
    assert |queued - s| == |queued| - |s| == 0;
  }

  /**
   * A positive walk from a visited `source` to an unvisited `x` leaves the
   * visited nodes over some edge; when every such edge starts at depth `d`
   * or more, the walk has more than `d` edges.
   */
  lemma {:induction false} WalkToUnseen(g: Graph, source: Node, visited: set<Node>, dist: map<Node, nat>, d: nat,
                                        p: seq<Node>, x: Node)
    requires source in visited && x !in visited && IsPositiveWalk(g, p, source, x)
    requires DistLowerBound(g, source, visited, dist)
    requires forall u, w :: u in visited && w !in visited && Cap(g, u, w) > 0 ==> u in dist && d <= dist[u]
    ensures d + 1 <= |p| - 1
    decreases |p|
  {
    var y := p[|p| - 2];
    var q := p[..|p| - 1];
    assert IsPositiveWalk(g, q, source, y);
    if y in visited {
      assert AtLeast(g, source, y, dist[y]);
    } else {
      WalkToUnseen(g, source, visited, dist, d, q, y);
    }
  }

  /**
   * While `node`, at the head depth, is being scanned, every edge from a
   * visited node to an unvisited one starts at depth `dist[node]` or more:
   * it starts at `node` or at a queued node.
   */
  lemma Frontier(g: Graph, source: Node, node: Node, visited: set<Node>, queue: seq<Node>,
                 queued: set<Node>, parent: map<Node, Node>, dist: map<Node, nat>)
    requires Searching(g, source, visited, queue, queued, parent, dist) && node in dist
    requires ClosedExcept(g, visited, queued, node) && Levels(queue, dist, dist[node])
    ensures forall u, w :: u in visited && w !in visited && Cap(g, u, w) > 0 ==> u in dist && dist[node] <= dist[u]
  {
    QueuedInQueue(queue, queued);
    forall u, w | u in visited && w !in visited && Cap(g, u, w) > 0 ensures u in dist && dist[node] <= dist[u] {
      if u != node {
        assert u in queued;
        var k :| 0 <= k < |queue| && queue[k] == u;
      }
    }
  }

  /**
   * Visiting an unvisited neighbour `nb` of `node` at depth `dist[node] + 1`
   * keeps the queue in levels, keeps every visited depth a lower bound on the
   * walks to it, and closes no node early.
   */
  lemma VisitKeepsLevels(g: Graph, source: Node, node: Node, nb: Node, visited: set<Node>, queue: seq<Node>,
                         queued: set<Node>, parent: map<Node, Node>, dist: map<Node, nat>)
    requires Searching(g, source, visited, queue, queued, parent, dist) && queued <= visited
    requires node in visited && node in dist && ClosedExcept(g, visited, queued, node)
    requires Levels(queue, dist, dist[node]) && DistLowerBound(g, source, visited, dist)
    requires nb !in visited && Cap(g, node, nb) > 0
    ensures Levels(queue + [nb], dist[nb := dist[node] + 1], dist[node])
    ensures DistLowerBound(g, source, visited + {nb}, dist[nb := dist[node] + 1])
    ensures ClosedExcept(g, visited + {nb}, queued + {nb}, node)
  {
    var dist2 := dist[nb := dist[node] + 1];
    Frontier(g, source, node, visited, queue, queued, parent, dist);
    forall p | IsPositiveWalk(g, p, source, nb) ensures dist[node] + 1 <= |p| - 1 {
      WalkToUnseen(g, source, visited, dist, dist[node], p, nb);
    }
    assert AtLeast(g, source, nb, dist2[nb]);
    forall v | v in visited + {nb} ensures v in dist2 && AtLeast(g, source, v, dist2[v]) {
      if v != nb {
        assert AtLeast(g, source, v, dist[v]);
      }
    }
    forall k | 0 <= k < |queue| ensures queue[k] != nb && dist2[queue[k]] == dist[queue[k]] {
      assert queue[k] in queued;
    }
  }

  /** `VisitKeepsLevels` stated on the bundled invariant. */
  lemma VisitAtLevel(g: Graph, source: Node, node: Node, nb: Node, visited: set<Node>, queue: seq<Node>,
                     queued: set<Node>, parent: map<Node, Node>, dist: map<Node, nat>)
    requires Searching(g, source, visited, queue, queued, parent, dist) && queued <= visited
    requires node in visited && node in dist && AtLevel(g, source, node, dist[node], visited, queue, queued, dist)
    requires nb !in visited && Cap(g, node, nb) > 0
    ensures AtLevel(g, source, node, dist[node], visited + {nb}, queue + [nb], queued + {nb}, dist[nb := dist[node] + 1])
  {
    VisitKeepsLevels(g, source, node, nb, visited, queue, queued, parent, dist);
  }

  /** Visiting an unvisited `nb` from `node` extends the queue and the parent links as a scan step should. */
  lemma VisitExtends(node: Node, nb: Node, visited: set<Node>, queue: seq<Node>, parent: map<Node, Node>)
    requires nb !in visited && nb !in parent
    ensures Extends(node, visited, queue, parent, visited + {nb}, queue + [nb], parent[nb := node])
  {
  }

  /** Taking the head off a queue in levels leaves the rest in levels around the head's depth. */
  lemma LevelsTail(queue: seq<Node>, dist: map<Node, nat>, d: nat)
    requires queue != [] && Levels(queue, dist, d)
    ensures Levels(queue[1..], dist, dist[queue[0]])
  {
  }

  /** A non-empty queue in levels around some depth is in levels around its head's depth. */
  lemma LevelsRebase(queue: seq<Node>, dist: map<Node, nat>, d: nat)
    requires queue != [] && Levels(queue, dist, d)
    ensures Levels(queue, dist, dist[queue[0]])
  {
  }

  /**
   * The parent links lead back from a visited `v` other than `source` along
   * an augmenting path that is a shortest one: no augmenting path from
   * `source` to `v` has fewer nodes.
   */
  lemma ShortestPath(g: Graph, source: Node, visited: set<Node>, parent: map<Node, Node>, dist: map<Node, nat>, v: Node)
    returns (p: seq<Node>)
    requires Tree(g, source, visited, parent, dist) && DistLowerBound(g, source, visited, dist)
    requires v in visited && v != source
    ensures IsAugmentingPath(g, p, source, v) && Follows(parent, p)
    ensures forall q :: IsAugmentingPath(g, q, source, v) ==> |p| <= |q|
  {
    p := TreePath(g, source, visited, parent, dist, v);
    assert AtLeast(g, source, v, dist[v]);
    forall q | IsAugmentingPath(g, q, source, v) ensures |p| <= |q| {
      assert IsPositiveWalk(g, q, source, v);
    }
  }

  /**
   * What the scan of `node` does to the queue and the parent links: earlier
   * entries stay, every appended node was unvisited before and is visited
   * now, earlier links stay, and every new link points at `node`.
   */
  ghost predicate Extends(node: Node, visited0: set<Node>, queue0: seq<Node>, parent0: map<Node, Node>,
                          visited: set<Node>, queue: seq<Node>, parent: map<Node, Node>) {
    queue0 <= queue && (forall k :: |queue0| <= k < |queue| ==> queue[k] !in visited0 && queue[k] in visited) &&
    (forall v :: v in parent0 ==> v in parent && parent[v] == parent0[v]) &&
    (forall v :: v in parent && v !in parent0 ==> parent[v] == node)
  }

  lemma ExtendsTrans(node: Node, visited0: set<Node>, queue0: seq<Node>, parent0: map<Node, Node>,
                     visited1: set<Node>, queue1: seq<Node>, parent1: map<Node, Node>,
                     visited: set<Node>, queue: seq<Node>, parent: map<Node, Node>)
    requires visited0 <= visited1 <= visited
    requires Extends(node, visited0, queue0, parent0, visited1, queue1, parent1)
    requires Extends(node, visited1, queue1, parent1, visited, queue, parent)
    ensures Extends(node, visited0, queue0, parent0, visited, queue, parent)
  {
    forall k | |queue0| <= k < |queue| ensures queue[k] !in visited0 && queue[k] in visited {
      if k < |queue1| {
        assert queue[k] == queue1[k];
      }
    }
  }

  /**
   * The search while `node`, at depth `d`, is scanned: the queue is in
   * levels around `d`, every visited depth is a lower bound on the walks to
   * that node, and only queued nodes and `node` may have unvisited
   * positive-capacity neighbours.
   */
  ghost predicate AtLevel(g: Graph, source: Node, node: Node, d: nat, visited: set<Node>, queue: seq<Node>,
                          queued: set<Node>, dist: map<Node, nat>) {
    node in dist && dist[node] == d && Levels(queue, dist, d) &&
    DistLowerBound(g, source, visited, dist) && ClosedExcept(g, visited, queued, node)
  }

  /**
   * Appending a scan's new queue entries to the log of every node ever
   * enqueued keeps the log free of repeats: the new entries were unvisited,
   * the logged ones visited.
   */
  lemma EnqueueLog(enqueued: seq<Node>, visited0: set<Node>, queue0: seq<Node>, visited: set<Node>, queue: seq<Node>)
    requires Distinct(enqueued) && forall k :: 0 <= k < |enqueued| ==> enqueued[k] in visited0
    requires visited0 <= visited && Distinct(queue) && queue0 <= queue
    requires forall k :: |queue0| <= k < |queue| ==> queue[k] !in visited0 && queue[k] in visited
    ensures Distinct(enqueued + queue[|queue0|..])
    ensures forall k :: 0 <= k < |enqueued + queue[|queue0|..]| ==> (enqueued + queue[|queue0|..])[k] in visited
  {
    var added := queue[|queue0|..];
    assert forall k :: 0 <= k < |added| ==> added[k] == queue[|queue0| + k];
    assert Distinct(added);
    DistinctConcat(enqueued, added);
  }
}
