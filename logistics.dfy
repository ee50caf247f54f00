/**
 * The fixed logistics network of task1_max_flow.py:123-186: two terminals
 * feed four warehouses, which feed fourteen stores, and a super-source and
 * a super-sink join the terminals and the stores through edges of unbounded
 * capacity. Both are built purely by `add_edge` calls.
 */
module Logistics {
  import opened FlowGraph
  import opened MaxFlow

  /** One `(from_node, to_node, capacity)` triple of an edge list. */
  datatype Link = Link(fromNode: Node, toNode: Node, capacity: nat)

  /** The number a string of decimal digits denotes, most significant digit first. */
  function DigitsValue(s: string): nat
    requires forall i :: 0 <= i < |s| ==> '0' <= s[i] <= '9'
  {
    if s == [] then 0 else DigitsValue(s[..|s| - 1]) * 10 + (s[|s| - 1] as int - '0' as int)
  }

  /** `str(n)` for a natural number. */
  function Decimal(n: nat): (s: string)
    ensures |s| >= 1 && forall i :: 0 <= i < |s| ==> '0' <= s[i] <= '9'
  {
    if n < 10 then ['0' + n as char] else Decimal(n / 10) + ['0' + (n % 10) as char]
  }

  /** `str(n)` is a digit string denoting `n`, with no leading zero. */
  lemma {:induction false} DecimalValue(n: nat)
    ensures DigitsValue(Decimal(n)) == n
    ensures |Decimal(n)| > 1 ==> Decimal(n)[0] != '0'
  {
    if n >= 10 {
      DecimalValue(n / 10);
      var s := Decimal(n);
      assert s[..|s| - 1] == Decimal(n / 10);
    }
  }

  function Terminal(i: nat): Node { "Термінал " + Decimal(i) }
  function Warehouse(i: nat): Node { "Склад " + Decimal(i) }
  function Store(i: nat): Node { "Магазин " + Decimal(i) }

  /**
   * The node names of the network name distinct nodes: two names of the
   * same kind agree only on the same number (so `Store(1)` is not
   * `Store(11)`), and names of different kinds never agree.
   */
  lemma NamesDistinct(i: nat, j: nat)
    ensures Terminal(i) == Terminal(j) <==> i == j
    ensures Warehouse(i) == Warehouse(j) <==> i == j
    ensures Store(i) == Store(j) <==> i == j
    ensures Terminal(i) != Warehouse(j) && Terminal(i) != Store(j) && Warehouse(i) != Store(j)
    ensures Terminal(i) != SuperSource && Terminal(i) != SuperSink
    ensures Warehouse(i) != SuperSource && Warehouse(i) != SuperSink
    ensures Store(i) != SuperSource && Store(i) != SuperSink
  {
    DecimalValue(i);
    DecimalValue(j);
    if Terminal(i) == Terminal(j) {
      assert Decimal(i) == Terminal(i)[|"Термінал "|..];
      assert Decimal(j) == Terminal(j)[|"Термінал "|..];
    }
    if Warehouse(i) == Warehouse(j) {
      assert Decimal(i) == Warehouse(i)[|"Склад "|..];
      assert Decimal(j) == Warehouse(j)[|"Склад "|..];
    }
    if Store(i) == Store(j) {
      assert Decimal(i) == Store(i)[|"Магазин "|..];
      assert Decimal(j) == Store(j)[|"Магазин "|..];
    }
    assert Terminal(i)[0] == 'Т' && Warehouse(i)[0] == 'С' && Store(i)[0] == 'М';
    assert Warehouse(j)[0] == 'С' && Store(j)[0] == 'М';
    assert SuperSource[0] == 'С' && SuperSink[0] == 'С';
    assert Warehouse(i)[1] == 'к' && SuperSource[1] == 'у' && SuperSink[1] == 'у';
  }

  const SuperSource: Node := "Супер-Джерело"
  const SuperSink: Node := "Супер-Стік"

  /** The edge table of `create_logistics_network` (task1_max_flow.py:133-155), in its order. */
  function LogisticsEdges(): (edges: seq<Link>)
    ensures |edges| == 20 && forall k :: 0 <= k < |edges| ==> 0 < edges[k].capacity <= 30
  {
    [
      Link(Terminal(1), Warehouse(1), 25),
      Link(Terminal(1), Warehouse(2), 20),
      Link(Terminal(1), Warehouse(3), 15),
      Link(Terminal(2), Warehouse(3), 15),
      Link(Terminal(2), Warehouse(4), 30),
      Link(Terminal(2), Warehouse(2), 10),
      Link(Warehouse(1), Store(1), 15),
      Link(Warehouse(1), Store(2), 10),
      Link(Warehouse(1), Store(3), 20),
      Link(Warehouse(2), Store(4), 15),
      Link(Warehouse(2), Store(5), 10),
      Link(Warehouse(2), Store(6), 25),
      Link(Warehouse(3), Store(7), 20),
      Link(Warehouse(3), Store(8), 15),
      Link(Warehouse(3), Store(9), 10),
      Link(Warehouse(4), Store(10), 20),
      Link(Warehouse(4), Store(11), 10),
      Link(Warehouse(4), Store(12), 15),
      Link(Warehouse(4), Store(13), 5),
      Link(Warehouse(4), Store(14), 10)
    ]
  }

  /** The edges `add_super_source_and_sink` adds (task1_max_flow.py:179-184), in its order. */
  function SuperEdges(): (s: seq<Link>)
    ensures |s| == 16
  {
    [Link(SuperSource, Terminal(1), Unlimited), Link(SuperSource, Terminal(2), Unlimited)] +
    seq(14, k requires 0 <= k < 14 => Link(Store(k + 1), SuperSink, Unlimited))
  }

  /** The sum of the capacities of an edge list. */
  function TotalCapacity(edges: seq<Link>): nat {
    if edges == [] then 0 else edges[0].capacity + TotalCapacity(edges[1..])
  }

  /**
   * The capacity that stands in for `float('inf')` on the super edges. It
   * exceeds all the capacities of the edge table put together
   * (`UnlimitedExceedsTable`), so no augmenting path is limited by a super
   * edge.
   */
  const Unlimited: nat := 1_000_000

  /** An edge list whose capacities are each at most `m` has total capacity at most `m` times its length. */
  lemma {:induction false} TotalCapacityBound(edges: seq<Link>, m: nat)
    requires forall k :: 0 <= k < |edges| ==> edges[k].capacity <= m
    ensures TotalCapacity(edges) <= m * |edges|
  {
    if edges != [] {
      TotalCapacityBound(edges[1..], m);
    }
  }

  lemma UnlimitedExceedsTable()
    ensures TotalCapacity(LogisticsEdges()) < Unlimited
  {
    TotalCapacityBound(LogisticsEdges(), 30);
  }

  /** The table after `add_edge` was called on each link of `edges` in turn, starting from `g`. */
  function AddAll(g: Graph, edges: seq<Link>): Graph
    decreases |edges|
  {
    if edges == [] then g
    else AddAll(WithEdge(g, edges[0].fromNode, edges[0].toNode, edges[0].capacity), edges[1..])
  }

  /** Every endpoint named in `edges`. */
  function Endpoints(edges: seq<Link>): set<Node> {
    if edges == [] then {} else {edges[0].fromNode, edges[0].toNode} + Endpoints(edges[1..])
  }

  /**
   * The capacity of `(u, v)` found by reading `edges` in order from the
   * capacity `c`: each link from `u` to `v` replaces it. Links from `v` to
   * `u` do not matter: the reverse entry they create never replaces an
   * existing capacity.
   */
  ghost function ListedCap(c: int, edges: seq<Link>, u: Node, v: Node): int
    decreases |edges|
  {
    if edges == [] then c
    else ListedCap(if edges[0].fromNode == u && edges[0].toNode == v then edges[0].capacity else c, edges[1..], u, v)
  }

  /** A sequence of `add_edge` calls gives each pair the capacity of its last forward link and names exactly the listed endpoints as new nodes. */
  lemma {:induction false} AddAllCaps(g: Graph, edges: seq<Link>)
    ensures forall u, v :: Cap(AddAll(g, edges), u, v) == ListedCap(Cap(g, u, v), edges, u, v)
    ensures AddAll(g, edges).Keys == g.Keys + Endpoints(edges)
    decreases |edges|
  {
    if edges != [] {
      var e := edges[0];
      AddAllCaps(WithEdge(g, e.fromNode, e.toNode, e.capacity), edges[1..]);
    }
  }

  /**
   * Calls `add_edge` on each link of `edges` in turn: the table becomes
   * `AddAll` of the old one and the nodes gain the listed endpoints.
   */
  method AddEdges(network: MaxFlowNetwork, edges: seq<Link>)
    requires network.Valid()
    modifies network
    ensures network.Valid()
    ensures network.graph == AddAll(old(network.graph), edges)
    ensures network.nodes == old(network.nodes) + Endpoints(edges)
  {
    ghost var graph0, nodes0 := network.graph, network.nodes;
    var i := 0;
    while i < |edges|
      invariant 0 <= i <= |edges| && network.Valid()
      invariant AddAll(network.graph, edges[i..]) == AddAll(graph0, edges)
      invariant network.nodes + Endpoints(edges[i..]) == nodes0 + Endpoints(edges)
    {
      var e := edges[i];
      assert edges[i..][1..] == edges[i + 1..];
      network.AddEdge(e.fromNode, e.toNode, e.capacity);
      i := i + 1;
    }
  }

  /** Set union with nothing; stated apart so that the edge table is not unfolded to prove it. */
  lemma UnionWithNone(nodes: set<Node>, endpoints: set<Node>)
    requires nodes == {} + endpoints
    ensures nodes == endpoints
  {
  }

  /** `create_logistics_network` (task1_max_flow.py:123-162): a fresh network holding exactly the edge table. */
  method CreateLogisticsNetwork() returns (network: MaxFlowNetwork)
    ensures fresh(network) && network.Valid()
    ensures network.graph == AddAll(map[], LogisticsEdges())
    ensures network.nodes == Endpoints(LogisticsEdges())
  {
    network := new MaxFlowNetwork();
    AddEdges(network, LogisticsEdges());
    UnionWithNone(network.nodes, Endpoints(LogisticsEdges()));
  }

  /**
   * `add_super_source_and_sink` (task1_max_flow.py:165-186): `add_edge`
   * calls with unbounded capacity from the super-source to both terminals
   * and from each of the fourteen stores to the super-sink, in that order.
   */
  method AddSuperSourceAndSink(network: MaxFlowNetwork) returns (superSource: Node, superSink: Node)
    requires network.Valid()
    modifies network
    ensures network.Valid()
    ensures superSource == SuperSource && superSink == SuperSink
    ensures network.graph == AddAll(old(network.graph), SuperEdges())
    ensures network.nodes == old(network.nodes) + Endpoints(SuperEdges())
  {
    superSource, superSink := SuperSource, SuperSink;
    AddEdges(network, SuperEdges());
  }
}
