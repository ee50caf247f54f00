/**
 * The capacity tables of `MaxFlowNetwork` (task1_max_flow.py) seen as values.
 *
 * `self.graph` is a dict of dicts: for every node `u`, `graph[u]` maps a
 * neighbour to a capacity. Python dicts iterate in insertion order and the
 * breadth-first search visits neighbours in that order, so a row keeps the
 * order of its keys beside the capacities.
 */
module FlowGraph {
  import opened Seqs

  type Node = string

  /** One inner dict `graph[u]`: its keys in insertion order, and the capacities. */
  datatype Row = Row(order: seq<Node>, cap: map<Node, int>)

  type Graph = map<Node, Row>

  /** The returned flow table `flow_graph[u][v]` (a nested dict, not a dict keyed by pairs). */
  type FlowMap = map<Node, map<Node, int>>

  const EmptyRow: Row := Row([], map[])

  /** A row is a well-formed ordered dict: its order lists each key exactly once. */
  ghost predicate RowOK(row: Row) {
    Distinct(row.order) && forall v :: v in row.cap <==> v in row.order
  }

  /** Python's `row[v] = c`: a new key goes to the end of the order, an old one keeps its place. */
  function Assign(row: Row, v: Node, c: int): (r: Row)
    ensures r.cap == row.cap[v := c]
    ensures row.order <= r.order
    ensures RowOK(row) ==> RowOK(r)
  {
    if v in row.cap then Row(row.order, row.cap[v := c])
    else Row(row.order + [v], row.cap[v := c])
  }

  /** Reading `graph[u]` through the defaultdict: a node never seen has an empty row. */
  function RowOf(g: Graph, u: Node): Row {
    if u in g then g[u] else EmptyRow
  }

  predicate HasEdge(g: Graph, u: Node, v: Node) {
    u in g && v in g[u].cap
  }

  /** `graph[u].get(v, 0)`. */
  function Cap(g: Graph, u: Node, v: Node): int {
    if HasEdge(g, u, v) then g[u].cap[v] else 0
  }

  /** Every row is a well-formed ordered dict and every edge has its reverse entry. */
  ghost predicate WellShaped(g: Graph) {
    (forall u :: u in g ==> RowOK(g[u])) &&
    (forall u, v :: HasEdge(g, u, v) ==> HasEdge(g, v, u))
  }

  ghost predicate NonNegative(g: Graph) {
    forall u, v :: Cap(g, u, v) >= 0
  }

  /** The first statement of `add_edge`: `graph[a][b] = c` through the defaultdict. */
  function SetForward(g: Graph, a: Node, b: Node, c: int): (r: Graph)
    ensures HasEdge(r, a, b) && Cap(r, a, b) == c
    ensures forall u, v :: (u, v) != (a, b) ==>
              (HasEdge(r, u, v) <==> HasEdge(g, u, v)) && Cap(r, u, v) == Cap(g, u, v)
    ensures r.Keys == g.Keys + {a}
  {
    g[a := Assign(RowOf(g, a), b, c)]
  }

  /** The last two statements of `add_edge`: give `b` a row, and a zero entry for `a` if it has none. */
  function EnsureReverse(g: Graph, a: Node, b: Node): (r: Graph)
    ensures HasEdge(r, b, a) && Cap(r, b, a) == Cap(g, b, a)
    ensures forall u, v :: (u, v) != (b, a) ==>
              (HasEdge(r, u, v) <==> HasEdge(g, u, v)) && Cap(r, u, v) == Cap(g, u, v)
    ensures r.Keys == g.Keys + {b}
  {
    var g1 := if b in g then g else g[b := EmptyRow];
    if a in g1[b].cap then g1 else g1[b := Assign(g1[b], a, 0)]
  }

  /**
   * `add_edge(a, b, c)` on the table (task1_max_flow.py:27-34): the forward
   * capacity becomes `c`, the reverse entry exists afterwards and keeps its
   * value (zero when it is new), and no other entry changes.
   */
  function WithEdge(g: Graph, a: Node, b: Node, c: int): (r: Graph)
    ensures HasEdge(r, a, b) && Cap(r, a, b) == c
    ensures HasEdge(r, b, a)
    ensures a != b ==> Cap(r, b, a) == Cap(g, b, a)
    ensures forall u, v :: (u, v) != (a, b) && (u, v) != (b, a) ==>
              (HasEdge(r, u, v) <==> HasEdge(g, u, v)) && Cap(r, u, v) == Cap(g, u, v)
    ensures r.Keys == g.Keys + {a, b}
  {
    EnsureReverse(SetForward(g, a, b, c), a, b)
  }

  /** Rows stay well-formed ordered dicts under `add_edge`, and an old row keeps its key order as a prefix. */
  lemma WithEdgeKeepsRows(g: Graph, a: Node, b: Node, c: int)
    requires forall u :: u in g ==> RowOK(g[u])
    ensures var r := WithEdge(g, a, b, c);
      forall u :: u in r ==> RowOK(r[u]) && (u in g ==> g[u].order <= r[u].order)
  {
    assert RowOK(EmptyRow);
    var g1 := SetForward(g, a, b, c);
    var g2 := if b in g1 then g1 else g1[b := EmptyRow];
    var r := WithEdge(g, a, b, c);
    forall u | u in g1 ensures RowOK(g1[u]) && (u in g ==> g[u].order <= g1[u].order) {
      if u == a {
        assert RowOK(RowOf(g, a));
      }
    }
    forall u | u in g2 ensures RowOK(g2[u]) && (u in g1 ==> g1[u].order <= g2[u].order) {
    }
    forall u | u in r ensures RowOK(r[u]) && (u in g ==> g[u].order <= r[u].order) {
      assert RowOK(g2[u]);
      if u in g {
        assert g[u].order <= g1[u].order <= g2[u].order <= r[u].order;
      }
    }
  }

  /** `add_edge` keeps every edge paired with its reverse entry and every capacity non-negative. */
  lemma WithEdgeKeepsShape(g: Graph, a: Node, b: Node, c: int)
    requires WellShaped(g)
    ensures WellShaped(WithEdge(g, a, b, c))
    ensures NonNegative(g) && c >= 0 ==> NonNegative(WithEdge(g, a, b, c))
  {
    var r := WithEdge(g, a, b, c);
    WithEdgeKeepsRows(g, a, b, c);
    forall u, v | HasEdge(r, u, v) ensures HasEdge(r, v, u) {
      if (u, v) != (a, b) && (u, v) != (b, a) {
        assert HasEdge(g, u, v);
      }
    }
  }

  // ---------------------------------------------------------------------------
  // Augmenting paths

  /** A simple path from `source` to `sink` whose every edge has positive residual capacity. */
  ghost predicate IsAugmentingPath(g: Graph, path: seq<Node>, source: Node, sink: Node) {
    |path| >= 2 && path[0] == source && path[|path| - 1] == sink && Distinct(path) &&
    forall i :: 0 <= i < |path| - 1 ==> Cap(g, path[i], path[i + 1]) > 0
  }

  ghost predicate NoAugmentingPath(g: Graph, source: Node, sink: Node) {
    forall path :: !IsAugmentingPath(g, path, source, sink)
  }

  /** Following the `parent` links from the end of `path` walks `path` backwards. */
  ghost predicate Follows(parent: map<Node, Node>, path: seq<Node>) {
    forall i :: 0 < i < |path| ==> path[i] in parent && parent[path[i]] == path[i - 1]
  }

  /** The edges of `path` from its `k`-th node on. */
  ghost function EdgesFrom(path: seq<Node>, k: nat): set<(Node, Node)> {
    set i {:trigger path[i]} | k <= i < |path| - 1 :: (path[i], path[i + 1])
  }

  ghost function EdgesOf(path: seq<Node>): set<(Node, Node)> {
    EdgesFrom(path, 0)
  }

  /** The change that pushing `f` units along the edges `E` makes to the entry `(u, v)`. */
  ghost function Delta(E: set<(Node, Node)>, f: int, u: Node, v: Node): int {
    (if (v, u) in E then f else 0) - (if (u, v) in E then f else 0)
  }

  /** Same nodes, same rows, same key order: only capacities may differ. */
  ghost predicate SameShape(g: Graph, h: Graph) {
    g.Keys == h.Keys &&
    forall u :: u in g ==> h[u].order == g[u].order && h[u].cap.Keys == g[u].cap.Keys
  }

  /** `r2` is `r` after `f` units were pushed along the edges `E` (task1_max_flow.py:103-107). */
  ghost predicate IsPush(r: Graph, r2: Graph, E: set<(Node, Node)>, f: int) {
    SameShape(r, r2) &&
    forall u, v :: HasEdge(r, u, v) ==> Cap(r2, u, v) == Cap(r, u, v) + Delta(E, f, u, v)
  }

  /** `r[u][v] + r[v][u]` is the same in both tables for every pair. */
  ghost predicate PairSums(g: Graph, r: Graph) {
    forall u, v :: Cap(r, u, v) + Cap(r, v, u) == Cap(g, u, v) + Cap(g, v, u)
  }

  // ---------------------------------------------------------------------------
  // Capacity out of a node

  function RowSum(order: seq<Node>, cap: map<Node, int>): int {
    if order == [] then 0
    else (if order[0] in cap then cap[order[0]] else 0) + RowSum(order[1..], cap)
  }

  /** Total capacity of the edges leaving `u`. */
  function OutSum(g: Graph, u: Node): int {
    RowSum(RowOf(g, u).order, RowOf(g, u).cap)
  }

  lemma {:induction false} RowSumNonNegative(order: seq<Node>, cap: map<Node, int>)
    requires forall v :: v in cap ==> cap[v] >= 0
    ensures RowSum(order, cap) >= 0
  {
    if order != [] {
      RowSumNonNegative(order[1..], cap);
    }
  }

  /** In a non-negative table the capacity out of any node is non-negative. */
  lemma OutSumNonNegative(g: Graph, u: Node)
    requires NonNegative(g)
    ensures OutSum(g, u) >= 0
  {
    var row := RowOf(g, u);
    forall v | v in row.cap ensures row.cap[v] >= 0 {
      assert Cap(g, u, v) == row.cap[v];
    }
    RowSumNonNegative(row.order, row.cap);
  }

  /** Two capacity maps that agree on every key of `order` have the same sum over it. */
  lemma {:induction false} RowSumSame(order: seq<Node>, cap: map<Node, int>, cap2: map<Node, int>)
    requires forall v :: v in order ==> (v in cap <==> v in cap2) && (v in cap ==> cap2[v] == cap[v])
    ensures RowSum(order, cap2) == RowSum(order, cap)
  {
    if order != [] {
      RowSumSame(order[1..], cap, cap2);
    }
  }

  /** Changing the capacity of one key that `order` lists once changes the sum by the same amount. */
  lemma {:induction false} RowSumUpdate(order: seq<Node>, cap: map<Node, int>, cap2: map<Node, int>, k: Node, d: int)
    requires Distinct(order) && k in order
    requires k in cap && k in cap2 && cap2[k] == cap[k] + d
    requires forall v :: v in order && v != k ==> (v in cap <==> v in cap2) && (v in cap ==> cap2[v] == cap[v])
    ensures RowSum(order, cap2) == RowSum(order, cap) + d
  {
    if order[0] == k {
      assert k !in order[1..];
      RowSumSame(order[1..], cap, cap2);
    } else {
      RowSumUpdate(order[1..], cap, cap2, k, d);
    }
  }

  /** On a simple path an edge never appears together with its reverse, and the first node has exactly one edge. */
  lemma SimplePathEdges(path: seq<Node>)
    requires |path| >= 2 && Distinct(path)
    ensures forall u, v :: (u, v) in EdgesOf(path) ==> (v, u) !in EdgesOf(path)
    ensures forall x :: (x, path[0]) !in EdgesOf(path)
    ensures forall v :: (path[0], v) in EdgesOf(path) <==> v == path[1]
  {
    forall u, v | (u, v) in EdgesOf(path) ensures (v, u) !in EdgesOf(path) {
      var i :| 0 <= i < |path| - 1 && (path[i], path[i + 1]) == (u, v);
      forall j | 0 <= j < |path| - 1 ensures (path[j], path[j + 1]) != (v, u) {
        assert path[j] == v ==> j == i + 1;
        assert path[j + 1] == u ==> j + 1 == i;
      }
    }
    assert forall i :: 1 <= i < |path| ==> path[i] != path[0];
    assert (path[0], path[1]) in EdgesOf(path);
    forall v | (path[0], v) in EdgesOf(path) ensures v == path[1] {
      var i :| 0 <= i < |path| - 1 && (path[i], path[i + 1]) == (path[0], v);
    }
  }

  /** A push keeps the rows well-formed and, when `f` is at most every path capacity, every capacity non-negative. */
  lemma PushKeepsNonNegative(r: Graph, r2: Graph, path: seq<Node>, f: int, source: Node, sink: Node)
    requires WellShaped(r) && NonNegative(r)
    requires IsAugmentingPath(r, path, source, sink)
    requires 0 < f && forall i :: 0 <= i < |path| - 1 ==> f <= Cap(r, path[i], path[i + 1])
    requires IsPush(r, r2, EdgesOf(path), f)
    ensures WellShaped(r2) && NonNegative(r2)
  {
    forall u | u in r2 ensures RowOK(r2[u]) {
      assert RowOK(r[u]);
      assert r2[u].order == r[u].order && r2[u].cap.Keys == r[u].cap.Keys;
    }
    forall u, v | HasEdge(r2, u, v) ensures HasEdge(r2, v, u) {
      assert HasEdge(r, u, v);
    }
    SimplePathEdges(path);
    forall u, v ensures Cap(r2, u, v) >= 0 {
      if HasEdge(r, u, v) {
        if (u, v) in EdgesOf(path) {
          var i :| 0 <= i < |path| - 1 && (path[i], path[i + 1]) == (u, v);
          assert Cap(r, u, v) >= f;
          assert Delta(EdgesOf(path), f, u, v) == -f;
        } else {
          assert Delta(EdgesOf(path), f, u, v) >= 0;
        }
      } else {
        assert !HasEdge(r2, u, v);
      }
    }
  }

  /** A push along any path keeps `r[u][v] + r[v][u]` for every pair. */
  lemma PushKeepsPairSums(r: Graph, r2: Graph, path: seq<Node>, f: int)
    requires WellShaped(r)
    requires IsPush(r, r2, EdgesOf(path), f)
    ensures PairSums(r, r2)
  {
    forall u, v ensures Cap(r2, u, v) + Cap(r2, v, u) == Cap(r, u, v) + Cap(r, v, u) {
      if HasEdge(r, u, v) {
        assert HasEdge(r, v, u);
      } else {
        assert !HasEdge(r, v, u);
      }
    }
  }

  /** Pushing `f` along an augmenting path lowers the capacity out of its source by exactly `f`. */
  lemma PushLowersSourceOut(r: Graph, r2: Graph, path: seq<Node>, f: int, source: Node, sink: Node)
    requires WellShaped(r)
    requires IsAugmentingPath(r, path, source, sink)
    requires IsPush(r, r2, EdgesOf(path), f)
    ensures OutSum(r2, source) == OutSum(r, source) - f
  {
    SimplePathEdges(path);
    assert Cap(r, path[0], path[1]) > 0;
    var row, row2 := r[source], r2[source];
    assert RowOK(row);
    forall v | v in row.order && v != path[1]
      ensures (v in row.cap <==> v in row2.cap) && (v in row.cap ==> row2.cap[v] == row.cap[v])
    {
      if v in row.cap {
        assert HasEdge(r, source, v) && Delta(EdgesOf(path), f, source, v) == 0;
      }
    }
    assert Delta(EdgesOf(path), f, source, path[1]) == -f;
    RowSumUpdate(row.order, row.cap, row2.cap, path[1], -f);
  }

  /** A set holding every positive-capacity successor of its members holds the end of any positive path that starts in it. */
  lemma {:induction false} ClosedHoldsPath(g: Graph, closed: set<Node>, path: seq<Node>)
    requires |path| >= 1 && path[0] in closed
    requires forall u, v :: u in closed && Cap(g, u, v) > 0 ==> v in closed
    requires forall i :: 0 <= i < |path| - 1 ==> Cap(g, path[i], path[i + 1]) > 0
    ensures path[|path| - 1] in closed
  {
    if |path| > 1 {
      ClosedHoldsPath(g, closed, path[..|path| - 1]);
      assert Cap(g, path[|path| - 2], path[|path| - 1]) > 0;
    }
  }
}
