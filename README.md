# Maximum flow for a logistics network, and a prefix tree with suffix and prefix queries

This project is a Dafny model of two Python programs.

**Maximum flow (task1_max_flow.py).** `MaxFlowNetwork` keeps a capacity table. The table is built with `add_edge`, which also creates a zero-capacity reverse entry. `edmonds_karp` computes a maximum flow:

- It repeats a breadth-first search (`bfs`) over a residual copy of the table.
- It takes the bottleneck capacity along each path found.
- It pushes that amount along the path.
- It records the flow of each path edge from the reverse residual.

Two builders are modelled as well. `create_logistics_network` adds the fixed edge table: two terminals, four warehouses, fourteen stores. `add_super_source_and_sink` joins them to a super-source and a super-sink.

**Prefix tree (trie.py).** `Trie` stores string keys with values in a tree of `TrieNode`s. It supports `put`, `get`, `contains` and `keys`.

**Homework (task2_trie.py).** `Homework` extends `Trie` with two queries:

- `count_words_with_suffix` counts the stored keys ending in a pattern.
- `has_prefix` asks whether some stored key starts with a prefix.

Both raise `ValueError` on an empty argument.

## How the model is laid out

| module | contents |
|---|---|
| `Seqs` | a few facts about sequences (no repeats, concatenation) |
| `FlowGraph` | the capacity table as a value |
| `BfsSearch` | the breadth-first-search tree invariant |
| `Augmenting` | the bottleneck minimum, residual updates and flow records |
| `MaxFlow` | the search, bottleneck and update loops as methods, and the class `MaxFlowNetwork` |
| `Logistics` | the two builders |
| `TrieSpec` | the prefix tree as an abstract value |
| `Tries` | the heap objects `TrieNode` and `Trie` |
| `Homework` | the two queries and their helpers |

**The capacity table.** The Python table is a dict of dicts. Here it is a `Graph`: a map from each node to a `Row`. A row holds the neighbours in insertion order and their capacities. Insertion order matters because `bfs` scans neighbours in that order.

**The trie.** The trie lives on the heap, as in Python:

- A `TrieNode` holds its `children` map and the children's insertion order. Python's dict iterates in that order.
- Each node has a ghost `path`.
- A `Trie` keeps two ghost fields:
  - `nodeAt`: the node of every path;
  - `shape`: the abstract tree, a map from each path to that node's flag, value and child order.
- `Valid()` says that the nodes spell out `shape`.

Every trie operation is proved against a function on `shape`:

| operation | specification |
|---|---|
| `put` | `TrieSpec.Put` |
| `get` | `Lookup` |
| `keys` | `Preorder` |
| `has_prefix` | `HasWordBelow` |

Properties of those functions are proved as lemmas in `TrieSpec`.

## Model

| member | source | states |
|---|---|---|
| FlowGraph.Assign | task1_max_flow.py:27-34 | one dict write `row[v] = c`: the capacity of `v` becomes `c` and every other capacity is kept; the neighbour order keeps its old entries as a prefix, a new key going last as in a Python dict; a well-formed row stays well-formed |
| FlowGraph.RowOf | task1_max_flow.py:53 | a definition: the row of `u` read through the `defaultdict`, a missing row reading as empty; `ScanNeighbours` walks its order |
| FlowGraph.Cap | task1_max_flow.py:99-110 | a definition: `graph[u][v]` read through the `defaultdict`, 0 when the pair is not an entry; the lemmas and methods below state its properties |
| FlowGraph.SetForward | task1_max_flow.py:27 | afterwards `(a, b)` is an entry with capacity `c`; every other pair keeps whether it is an entry and its capacity; the row of `a` exists |
| FlowGraph.EnsureReverse | task1_max_flow.py:30-34 | afterwards `(b, a)` is an entry; an existing capacity is kept and a new one is 0; nothing else changes; the row of `b` exists |
| FlowGraph.WithEdge | task1_max_flow.py:27-34 | `add_edge` on the table: `(a, b)` gets capacity `c`, `(b, a)` exists and keeps its capacity when `a != b`, every other pair is untouched, and the nodes gain `a` and `b` |
| FlowGraph.WithEdgeKeepsRows | task1_max_flow.py:27-34 | no row gains a repeated neighbour, and each existing row keeps its neighbour order as a prefix of the new one |
| FlowGraph.WithEdgeKeepsShape | task1_max_flow.py:18-34 | every entry keeps a reverse entry; capacities stay non-negative when the new one is |
| FlowGraph.ClosedHoldsPath | task1_max_flow.py:51-62 | a node set that holds `source` and is closed under positive-capacity edges holds the end of every positive path from `source`; this is why `bfs` answering False means no augmenting path exists |
| FlowGraph.PushKeepsNonNegative | task1_max_flow.py:102-107 | pushing at most the bottleneck along an augmenting path keeps every residual capacity non-negative and keeps the table's shape |
| FlowGraph.PushKeepsPairSums | task1_max_flow.py:106-107 | a push keeps `cap(u, v) + cap(v, u)` for every pair |
| FlowGraph.PushLowersSourceOut | task1_max_flow.py:106-107 | a push of `f` lowers the total residual capacity out of `source` by exactly `f` |
| FlowGraph.SimplePathEdges | task1_max_flow.py:102-113 | on a path without repeated nodes, no edge is walked in both directions, no edge enters `source`, and the only edge leaving `source` goes to the second node |
| BfsSearch.Dequeue | task1_max_flow.py:51-52 | `popleft` keeps the search invariant, with the removed node no longer queued |
| BfsSearch.Visit | task1_max_flow.py:55-58 | marking an unvisited neighbour over positive capacity visited, queued and parented keeps the search invariant; the set of unvisited nodes shrinks |
| BfsSearch.ChainTo | task1_max_flow.py:58 | the parent links from a visited node lead back to `source` along positive-capacity edges, with strictly increasing search depth, in at most as many edges as the node's depth |
| BfsSearch.UnvisitedHasNoParent | task1_max_flow.py:55-57 | only visited nodes have a parent link, so a newly visited node's link is new |
| BfsSearch.TreePath | task1_max_flow.py:58-60 | the parent links of a visited node other than `source` spell an augmenting path from `source`: no repeated node, every edge of positive capacity |
| BfsSearch.WalkToUnseen | task1_max_flow.py:50-60 | a positive-capacity walk from `source` to an unvisited node has more than `d` edges when every edge leaving the visited set starts at depth `d` or more |
| BfsSearch.Frontier | task1_max_flow.py:50-60 | while the head of the queue is scanned, every edge from a visited node to an unvisited one starts at that node or at a queued node, hence at its depth or deeper |
| BfsSearch.VisitKeepsLevels | task1_max_flow.py:55-57 | visiting a neighbour at one more than the scanned node's depth keeps the queue ordered by depth over two adjacent levels, keeps every visited node's depth a lower bound on the length of any positive walk to it, and leaves only queued nodes and the scanned node with unvisited neighbours |
| BfsSearch.ShortestPath | task1_max_flow.py:58-60 | the parent links of a visited node spell an augmenting path from `source` to it that is no longer than any other augmenting path to it |
| BfsSearch.EnqueueLog | task1_max_flow.py:56 | appending a scan's newly queued nodes to the log of every node ever queued keeps the log free of repeats |
| BfsSearch.ScannedAll | task1_max_flow.py:54-60 | after a full neighbour scan, every positive-capacity neighbour of the node is visited |
| MaxFlow.Relax | task1_max_flow.py:54-60 | one neighbour: when unvisited and over positive capacity, `visited` gains exactly it, the queue gains it at the end, its parent becomes the scanned node, and the result says whether it is `sink`; otherwise `visited`, the queue and `parent` are unchanged and the result is False; the search invariant and the depth levels are kept |
| MaxFlow.ScanNeighbours | task1_max_flow.py:53-60 | scanning a node's neighbours in insertion order keeps the old queue as a prefix, appends only nodes that were unvisited and are now visited, keeps every old parent link and links every new one to the scanned node; it keeps the search invariant and the depth levels; it either reaches `sink` or leaves every positive-capacity neighbour visited |
| MaxFlow.Bfs | task1_max_flow.py:36-62 | True comes with an augmenting path that the parent links follow, and no augmenting path is shorter; False means no augmenting path exists; `source == sink` gives False; no node is appended to the queue twice |
| Augmenting.PathMinIsMinimum | task1_max_flow.py:96-100 | the minimum of the residual capacities along the path is at most each of them and equals one of them |
| MaxFlow.Bottleneck | task1_max_flow.py:95-100 | the walk from `sink` back through `parent`, seeded with infinity, yields the minimum of the path's residual capacities; it is positive, at most every edge's capacity and equal to one of them |
| Augmenting.Adjust | task1_max_flow.py:106-107 | one `residual[u][v] += d` changes that capacity by `d` and nothing else, and keeps the table's shape |
| Augmenting.PushStep | task1_max_flow.py:104-107 | one edge's update extends a partial push to one more path edge |
| Augmenting.SetFlow | task1_max_flow.py:110-111 | writing a flow entry sets that entry and keeps every other one |
| Augmenting.RecordStep | task1_max_flow.py:110-111 | one edge's conditional flow write extends the record of the round to that edge |
| Augmenting.RecordsKeepBounded | task1_max_flow.py:110-111 | recorded flows stay on edges of positive original capacity, positive, and at most `cap(u, v) + cap(v, u)` |
| Augmenting.RoundKeeps | task1_max_flow.py:102-115 | a round keeps the loop invariant: shape, non-negativity, pair sums and bounded flows; the residual out of `source` drops by the bottleneck |
| MaxFlow.Augment | task1_max_flow.py:102-113 | walking back from `sink`, each path edge loses the bottleneck and its reverse gains it; each flow entry is overwritten exactly when the new reverse residual and the original capacity are positive; every other entry is kept |
| MaxFlow.Round | task1_max_flow.py:88-115 | one round: either no augmenting path exists, or the bottleneck is pushed along a shortest augmenting path and the loop invariant holds for the new tables |
| MaxFlow.MaxFlowNetwork.constructor | task1_max_flow.py:13-16 | an empty table and no nodes |
| MaxFlow.MaxFlowNetwork.AddEdge | task1_max_flow.py:18-34 | the table becomes `WithEdge` of the old one and both endpoints join `nodes`; the class invariant is kept |
| MaxFlow.MaxFlowNetwork.EdmondsKarp | task1_max_flow.py:64-120 | the stored table is restored; the final residual table has no augmenting path, keeps the original's shape and pair sums, and is non-negative; the result is the capacity that left `source`, between 0 and its total outgoing capacity; each flow entry lies on an edge of positive capacity, is bounded by the capacities between its endpoints, and by the forward capacity when the reverse one is 0; `source == sink` gives 0 and no flows |
| Logistics.Decimal | task1_max_flow.py:183-184 | `str(i)` is a non-empty string of decimal digits |
| Logistics.DecimalValue | task1_max_flow.py:183-184 | the digits of `str(n)` denote `n`, with no leading zero |
| Logistics.NamesDistinct | task1_max_flow.py:133-184 | node names built from numbers are equal only for the same kind and the same number (`Магазин 1` is not `Магазин 11`); terminals, warehouses, stores and the two super nodes never share a name |
| Logistics.LogisticsEdges | task1_max_flow.py:133-157 | the twenty links of the edge table, in order, each of capacity between 1 and 30 |
| Logistics.SuperEdges | task1_max_flow.py:179-184 | the sixteen super edges in the order they are added: the two terminal links, then one link per store |
| Logistics.TotalCapacityBound | task1_max_flow.py:133-157 | a list of edges of capacity at most `m` each has total capacity at most `m` times its length |
| Logistics.UnlimitedExceedsTable | task1_max_flow.py:179-184 | the finite stand-in for `float('inf')` exceeds the total capacity of the edge table |
| Logistics.AddAllCaps | task1_max_flow.py:159-160 | after a sequence of `add_edge` calls, every pair has the capacity of its last forward link, and the nodes gained are exactly the listed endpoints |
| Logistics.AddEdges | task1_max_flow.py:159-160 | calling `add_edge` on each link in order gives the table `AddAll` and the node set extended by the endpoints |
| Logistics.CreateLogisticsNetwork | task1_max_flow.py:123-162 | a fresh network whose table is the edge table added in order and whose nodes are its endpoints |
| Logistics.AddSuperSourceAndSink | task1_max_flow.py:165-186 | returns the two names and adds the sixteen super edges in order |
| TrieSpec.Lookup | trie.py:55-61 | a definition: the value of the node of `key` when it is an end of word, otherwise `None`; `Tries.Trie.Get` is proved against it |
| TrieSpec.Put | trie.py:33-40 | a definition: the walk adds the missing nodes of `key`, whose node then ends a word holding `value`; `PutSpec` states its properties |
| TrieSpec.EmptyShape | trie.py:18-20 | the tree of a fresh trie is well-formed and stores no key |
| TrieSpec.Step | trie.py:35-37 | one step of the walk: the child path is afterwards a node, and at most that path is added |
| TrieSpec.AddPath | trie.py:33-37 | after the walk over the first `n` characters of `key`, the prefix of length `n` and the root are nodes |
| TrieSpec.AddPathStep | trie.py:34-37 | an unfolding of `AddPath`: the walk one character further is one more `Step` |
| TrieSpec.StepKeeps | trie.py:35-36 | adding a child keeps the tree well-formed, and keeps old nodes' flags and values |
| TrieSpec.AddPathKeeps | trie.py:33-37 | the walk keeps the tree well-formed, changes no old node's flag or value, and adds exactly the prefixes of `key` as nodes |
| TrieSpec.MarkKeeps | trie.py:39-40 | marking the last node makes `key` answer `value`; every other key keeps its answer; the stored keys gain exactly `key` |
| TrieSpec.PutSpec | trie.py:22-40 | after `put(key, value)`: `get(key)` is `value`; every other key answers as before; the nodes gain exactly the prefixes of `key`; the stored keys gain exactly `key`; the tree stays well-formed |
| TrieSpec.StoredNoneIsAbsent | trie.py:61-73 | `put(key, None)` makes `key` a stored key, listed by `keys()`, while `get(key)` is `None`, so `contains(key)` is false |
| TrieSpec.PrefixIn | trie.py:33-37 | every prefix of a node's path is a node |
| TrieSpec.Preorder | trie.py:86-99 | a definition: the keys `_collect_keys` gathers below the node of `p`, the node's own key first, then each child's in insertion order; `PreorderElems` and `PreorderOrdered` state its properties |
| TrieSpec.PreorderKidsSnoc | trie.py:98-99 | an unfolding of the children part of `Preorder`: one more child appends exactly that child's keys |
| TrieSpec.PreorderElems | trie.py:86-99 | the keys collected from the node of `p` are exactly the stored keys that extend `p` |
| TrieSpec.PreorderOrdered | trie.py:86-99 | the collected keys have no repeats, and each comes before every key that extends it |
| TrieSpec.HasWordBelowChildren | task2_trie.py:91-110 | some stored key extends `p` if and only if `p` ends a word or some key extends one of its children |
| TrieSpec.MissingChildNoWords | task2_trie.py:68-70 | when a child is missing, no stored key extends the child's path |
| TrieSpec.HasWordBelowShorter | task2_trie.py:66-71 | a key extending a string extends every prefix of it |
| TrieSpec.EmptyHasNoWords | trie.py:18-20 | in a fresh trie no key extends any string |
| Tries.TrieNode.constructor | trie.py:8-12 | no children, not an end of word, value `None` |
| Tries.Trie.constructor | trie.py:18-20 | the root alone; the tree is the empty one and stores no key |
| Tries.Trie.AddChild | trie.py:35-36 | a fresh empty node is hung under the parent as child `c`, last in its order; the tree becomes `Step` of the old one |
| Tries.Trie.AddedMirrors | trie.py:35-36 | after the new child is hung, every node still holds what the tree says of its path |
| Tries.Trie.Descend | trie.py:35-37 | the walk's next node is the existing child, or a new one; the tree becomes `Step` of the old one |
| Tries.Trie.Mark | trie.py:39-40 | the last node becomes an end of word holding `value`; only that node of the tree changes |
| Tries.Trie.MarkedMirrors | trie.py:39-40 | after the mark, every node still holds what the tree says of its path |
| Tries.Trie.Put | trie.py:22-40 | the tree becomes `TrieSpec.Put` of the old one (whose properties `PutSpec` states), and the object invariant is kept |
| Tries.Trie.Get | trie.py:42-61 | the answer is the value of the node of `key` when it is an end of word; otherwise, or when the path is missing, `None` |
| Tries.Trie.Contains | trie.py:63-73 | true exactly when `get(key)` is not `None` |
| Tries.Trie.CollectKeys | trie.py:86-99 | appends to the list the stored keys below the node, in pre-order with children in insertion order |
| Tries.Trie.Keys | trie.py:75-84 | the result lists exactly the stored keys, each once, each before the keys that extend it; the trie is not changed |
| Homework.EndsWith | task2_trie.py:40 | a definition: `word.endswith(pattern)`, the last characters of `word`, as many as `pattern` has, compared exactly; `EndsWithIsSuffix` states its meaning |
| Homework.CountEndsWith | task2_trie.py:38-41 | the count of the loop over a list, at most the list's length |
| Homework.CountEndsWithExtremes | task2_trie.py:38-41 | the count is 0 exactly when no word of the list ends with the pattern, and the list's length exactly when every word does |
| Homework.EndsWithIsSuffix | task2_trie.py:40 | `word.endswith(pattern)` holds if and only if `word` is some string followed by `pattern` |
| Homework.CountIsCardinality | task2_trie.py:38-41 | over a list without repeats, the loop's count is the number of distinct words ending with the pattern |
| Homework.CountSuffixMatches | task2_trie.py:38-41 | the loop counts the words of the list that end with the pattern |
| Homework.CountKeys | task2_trie.py:33-43 | counting through the keys as collected counts each stored key ending with the pattern exactly once |
| Homework.CollectAllWords | task2_trie.py:76-89 | the same list as `_collect_keys`: the stored keys below the node, in pre-order with children in insertion order |
| Homework.CountWordsWithSuffix | task2_trie.py:12-43 | an empty pattern gives the `ValueError`; otherwise the result is the number of stored keys that end with the pattern, compared case-sensitively; the trie is not changed |
| Homework.HasWordsFromNode | task2_trie.py:91-110 | true if and only if the node, or some node below it, ends a word |
| Homework.HasPrefix | task2_trie.py:45-74 | an empty prefix gives the `ValueError`; otherwise true if and only if some stored key starts with the prefix, the prefix itself included; the trie is not changed |
| Homework.EmptyTrieAnswers | task2_trie.py:12-74 | on a fresh trie the suffix count is 0 and no prefix is found |

## Left out

- Type checks are not modelled. The `isinstance` checks and the `TypeError`s they raise are left out (trie.py:30-31 and 52-53; task2_trie.py:27-28 and 60-61). Dafny's types already rule out a non-string key or argument.
- Output and fixed scenarios are not modelled. This covers printing, `main` and the test drivers. The fixed 115-unit scenario of the logistics network is not proved either: its value would need the whole algorithm evaluated on concrete data.
- `calculate_terminal_to_store_flows` (task1_max_flow.py:189-231) is not modelled. It splits each store's inflow between the two terminals in proportion to what each terminal sends the warehouse. The proportion is a floating-point division and each share is truncated by `int()`, so the shares need not add up to the store's inflow. Floating point is outside this model.
- Logistics.AddSuperSourceAndSink: super edges use `Unlimited` (1,000,000) instead of `float('inf')`, which has no counterpart among integers. `UnlimitedExceedsTable` shows the stand-in exceeds all table capacities together. That is the reason for expecting no super edge to limit an augmenting path; the model does not prove that the flow is the same as with infinite capacities.
- MaxFlow.MaxFlowNetwork.AddEdge: the capacity is a `nat`. Negative capacities, which Python would accept, are not modelled.
- MaxFlow.MaxFlowNetwork.EdmondsKarp: the maximum-flow minimum-cut optimality is not proved. The contract states that no augmenting path remains in the final residual table, and how the result relates to the capacity that left `source`.
- MaxFlow.MaxFlowNetwork.EdmondsKarp: termination on real-valued capacities is not modelled. Capacities are integers, so each round lowers the residual capacity out of `source` by at least 1.
- MaxFlow.MaxFlowNetwork.EdmondsKarp: a recorded flow entry is the reverse residual capacity. This overstates the flow when the reverse edge had a capacity of its own: an edge stored in both directions with positive capacities. The contract bounds such an entry by the two capacities together.
- Return type of `edmonds_karp`: the source's annotation says a dict keyed by pairs. The code returns a dict of dicts keyed by the first node, and the model follows the code: `FlowMap`.
- The `defaultdict` side effect is not modelled: reading a missing row creates it. The model reads a missing row as empty and never stores it; this only matters for which nodes have rows.
- Residual copy and `parent` dict: `edmonds_karp` works on a residual copy, which the model keeps as a value. The `parent` dict that Python clears and refills every round is returned by `Bfs` instead of being shared.
- Result lists: the lists that `_collect_keys` and `_collect_all_words` extend in place are passed in and returned as values.
- Homework subclass: `Homework` is not a subclass here. Its methods are module-level methods taking the `Trie` they read.
