/**
 * What the two passes `edmonds_karp` makes over a found path
 * (task1_max_flow.py:95-111) compute, stated on the tables: the bottleneck
 * as a minimum over the path, the push as a change of the residual
 * capacities, and the flow entries the push records.
 */
module Augmenting {
  import opened Seqs
  import opened FlowGraph

  /** The minimum residual capacity over the edges of `path` from its `k`-th node on. */
  ghost function PathMin(r: Graph, path: seq<Node>, k: nat): int
    requires k < |path| - 1
    decreases |path| - k
  {
    if k == |path| - 2 then Cap(r, path[k], path[k + 1])
    else Min(Cap(r, path[k], path[k + 1]), PathMin(r, path, k + 1))
  }

  function Min(a: int, b: int): int {
    if a <= b then a else b
  }

  /** `PathMin` is a lower bound of the path's capacities, and the edge `j` attains it. */
  lemma {:induction false} PathMinIsMinimum(r: Graph, path: seq<Node>, k: nat) returns (j: nat)
    requires k < |path| - 1
    ensures forall i :: k <= i < |path| - 1 ==> PathMin(r, path, k) <= Cap(r, path[i], path[i + 1])
    ensures k <= j < |path| - 1 && PathMin(r, path, k) == Cap(r, path[j], path[j + 1])
    decreases |path| - k
  {
    if k == |path| - 2 {
      j := k;
    } else {
      j := PathMinIsMinimum(r, path, k + 1);
      if Cap(r, path[k], path[k + 1]) <= PathMin(r, path, k + 1) {
        j := k;
      }
    }
  }

  /** `residual_graph[u][v] += d` on an entry that exists; a table without the entry is left as it is. */
  function Adjust(g: Graph, u: Node, v: Node, d: int): (r: Graph)
    ensures SameShape(g, r)
    ensures forall x, y :: HasEdge(r, x, y) <==> HasEdge(g, x, y)
    ensures HasEdge(g, u, v) ==> Cap(r, u, v) == Cap(g, u, v) + d
    ensures forall x, y :: (x, y) != (u, v) ==> Cap(r, x, y) == Cap(g, x, y)
  {
    if HasEdge(g, u, v) then g[u := Row(g[u].order, g[u].cap[v := g[u].cap[v] + d])] else g
  }

  /** A path's edges from `k` on are its `k`-th edge and those from `k + 1` on; on a simple path neither direction of the `k`-th edge comes later. */
  lemma EdgesFromStep(path: seq<Node>, k: nat)
    requires k < |path| - 1 && Distinct(path)
    ensures EdgesFrom(path, k) == {(path[k], path[k + 1])} + EdgesFrom(path, k + 1)
    ensures (path[k], path[k + 1]) !in EdgesFrom(path, k + 1) && (path[k + 1], path[k]) !in EdgesFrom(path, k + 1)
  {
    forall i | k + 1 <= i < |path| - 1
      ensures (path[i], path[i + 1]) != (path[k], path[k + 1]) && (path[i], path[i + 1]) != (path[k + 1], path[k])
    {
      assert path[i] != path[k] && path[i + 1] != path[k];
    }
  }

  /** One more step of the walk: pushing along a fresh edge `(a, b)` extends a push along `E` to one along `E` and `(a, b)`. */
  lemma PushStep(r: Graph, r1: Graph, E: set<(Node, Node)>, f: int, a: Node, b: Node)
    requires IsPush(r, r1, E, f) && HasEdge(r, a, b) && HasEdge(r, b, a) && a != b
    requires (a, b) !in E && (b, a) !in E
    ensures IsPush(r, Adjust(Adjust(r1, a, b, -f), b, a, f), {(a, b)} + E, f)
  {
    var r2 := Adjust(Adjust(r1, a, b, -f), b, a, f);
    assert SameShape(r, r2);
    forall u, v | HasEdge(r, u, v) ensures Cap(r2, u, v) == Cap(r, u, v) + Delta({(a, b)} + E, f, u, v) {
      if (u, v) == (a, b) {
        assert Cap(r2, u, v) == Cap(r1, a, b) - f;
      } else if (u, v) == (b, a) {
        assert Cap(r2, u, v) == Cap(r1, b, a) + f;
      } else {
        assert Cap(r2, u, v) == Cap(r1, u, v);
      }
    }
  }

  /** Is there an entry `flow[u][v]`? */
  predicate HasFlow(flow: FlowMap, u: Node, v: Node) {
    u in flow && v in flow[u]
  }

  /** `flow_graph[u][v] = x` on the nested defaultdict: the inner dict of `u` is created when missing. */
  function SetFlow(flow: FlowMap, u: Node, v: Node, x: int): (r: FlowMap)
    ensures HasFlow(r, u, v) && r[u][v] == x
    ensures forall a, b :: (a, b) != (u, v) ==> (HasFlow(r, a, b) <==> HasFlow(flow, a, b))
    ensures forall a, b :: (a, b) != (u, v) && HasFlow(flow, a, b) ==> HasFlow(r, a, b) && r[a][b] == flow[a][b]
  {
    flow[u := (if u in flow then flow[u] else map[])[v := x]]
  }

  /**
   * `flow2` is `flow` with the entries the source records for a push into
   * `r2` along the edges `E`: an edge of `E` with positive reverse entry in
   * `r2` and positive capacity in `original` holds that reverse entry, and
   * every other entry, including a stale one, is left as it was.
   */
  ghost predicate RecordsPush(flow: FlowMap, flow2: FlowMap, original: Graph, r2: Graph, E: set<(Node, Node)>) {
    forall u, v ::
      if (u, v) in E && Cap(r2, v, u) > 0 && Cap(original, u, v) > 0 then
        HasFlow(flow2, u, v) && flow2[u][v] == Cap(r2, v, u)
      else
        (HasFlow(flow2, u, v) <==> HasFlow(flow, u, v)) && (HasFlow(flow, u, v) ==> flow2[u][v] == flow[u][v])
  }

  /** One more step of the walk records the entry of the fresh edge `(a, b)` and keeps the earlier records. */
  lemma RecordStep(flow: FlowMap, before: FlowMap, original: Graph, r1: Graph, rk: Graph,
                   E: set<(Node, Node)>, a: Node, b: Node)
    requires RecordsPush(flow, before, original, r1, E)
    requires (a, b) !in E && (b, a) !in E && a != b
    requires forall u, v :: (u, v) != (a, b) && (u, v) != (b, a) ==> Cap(rk, u, v) == Cap(r1, u, v)
    ensures RecordsPush(flow, if Cap(rk, b, a) > 0 && Cap(original, a, b) > 0 then SetFlow(before, a, b, Cap(rk, b, a)) else before,
                        original, rk, {(a, b)} + E)
  {
  }

  /**
   * Every recorded flow entry sits on an edge of positive capacity in `g`
   * and is positive and at most the capacity of the pair of edges between
   * its endpoints; on an edge whose reverse capacity is 0 that is the
   * edge's own capacity.
   */
  ghost predicate FlowBounded(g: Graph, flow: FlowMap) {
    forall u, v :: HasFlow(flow, u, v) ==> Cap(g, u, v) > 0 && 0 < flow[u][v] <= Cap(g, u, v) + Cap(g, v, u)
  }

  /** The entries one push records stay within the bounds, given the pair sums of the residual table. */
  lemma RecordsKeepBounded(g: Graph, r2: Graph, flow: FlowMap, flow2: FlowMap, E: set<(Node, Node)>)
    requires FlowBounded(g, flow) && RecordsPush(flow, flow2, g, r2, E)
    requires NonNegative(r2) && PairSums(g, r2)
    ensures FlowBounded(g, flow2)
  {
    forall u, v | HasFlow(flow2, u, v) ensures Cap(g, u, v) > 0 && 0 < flow2[u][v] <= Cap(g, u, v) + Cap(g, v, u) {
      if (u, v) in E && Cap(r2, v, u) > 0 && Cap(g, u, v) > 0 {
        assert Cap(r2, u, v) >= 0;
      }
    }
  }

  /**
   * One round of `edmonds_karp` keeps what its loop relies on: pushing the
   * bottleneck `f` of an augmenting path keeps the residual table
   * well-formed, non-negative, shaped like the original and with the
   * original's pair sums; it lowers the capacity out of `source` by `f`;
   * and the entries it records keep the flow table bounded.
   */
  lemma RoundKeeps(g: Graph, r: Graph, r2: Graph, flow: FlowMap, flow2: FlowMap,
                   path: seq<Node>, f: int, source: Node, sink: Node)
    requires WellShaped(r) && NonNegative(r) && SameShape(g, r) && PairSums(g, r) && FlowBounded(g, flow)
    requires IsAugmentingPath(r, path, source, sink)
    requires 0 < f && forall i :: 0 <= i < |path| - 1 ==> f <= Cap(r, path[i], path[i + 1])
    requires IsPush(r, r2, EdgesOf(path), f) && RecordsPush(flow, flow2, g, r2, EdgesOf(path))
    ensures WellShaped(r2) && NonNegative(r2) && SameShape(g, r2) && PairSums(g, r2) && FlowBounded(g, flow2)
    ensures OutSum(r2, source) == OutSum(r, source) - f
  {
    PushKeepsNonNegative(r, r2, path, f, source, sink);
    PushKeepsPairSums(r, r2, path, f);
    PushLowersSourceOut(r, r2, path, f, source, sink);
    RecordsKeepBounded(g, r2, flow, flow2, EdgesOf(path));
  }
}
