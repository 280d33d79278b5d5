# Verified model of the SDN multicast routing core

This project models, in Dafny, the core of a Ryu-based software-defined
networking testbed for multicast routing. The testbed has several parts:

- Weighted pruned landmark labelling (PLL) keeps two-hop distance labels for
  the network graph and repairs them when an edge is added, removed or
  re-weighted.
- A heat-degree model builds one multicast routing tree per source from
  these distances and the link bandwidths, pruning a tree when a receiver
  leaves.
- A distribution server tells each controller which switches are online
  and which routing trees it must install.
- The experiment scripts number the multicast groups, assign switches to
  controllers and build the Mininet topology.
- The controllers keep ARP-learning tables and a global topology list fed
  by topology messages.
- A relay frames OpenFlow messages between Mininet and the controllers.
- Small web pages let a user add or modify multicast groups.

Each source file of the core has its own module. Entities that the source
updates in place are classes with `modifies` clauses, and loops are `while`
or `for` loops with invariants. Pure lookups and folds are functions, with
lemmas relating them to independent reference definitions. The main modules
are:

- **PLL.** `PriorityQueues` (the heap-backed queue of `util.py`),
  `PllWeighted`, `IncPll`, `DecPll`, `FullPll` and `RouteUtil` (label
  verification). `Walks` holds the graph walks and walk weights that state
  what a label entry means.
- **Routing.** `Floyd` (`general_floyd2`), `HeatDegree` (the relevance
  counters, the heat lookups, receiver removal and tree conversion) and `Kmb`
  (the first graph G1 and the leaf pruning of `KMB` in `relavence_matrix.py`).
- **Servers and experiment setup.** `DistributionState` (the distribution
  server), `ExperimentSetup` (both `prepare1_graph_info.py` files),
  `CustomTopo` (both `prepare2_custom_mn_topo.py` files) and `HexStrings`
  (hexadecimal rendering and parsing as Python does it).
- **Probes and relay.** `Timestamps` (the probe payload of `send.cpp` and
  `recv.cpp`, and the multicast MAC) and `ProxyFraming` (the relay).
- **Controllers.** `SwitchTables` (the ARP, datapath-registry and IP
  forwarding tables of the distribution controller), `MobilityController`
  and `GlobalTopology` (the topology lists of the distribution controller).
- **Inputs and pages.** `RandomGraph` (the GT-ITM edge-file parser) and
  `WebUi` (the two multicast-group pages).
- **Shared definitions.** `Common` holds the Option type, distances with
  infinity, decimal strings and Python's `int()`.

Graphs are maps from a node to its neighbours and edge weights. Integers
are unbounded except where the source's width matters: the receiver's
`unsigned long` accumulator wraps modulo 2^64. Python's `//` and `%`
appear only with positive divisors, where they agree with Dafny's.

The description of the web pages says the sources are listed in insertion
order. The code collects them with `for … in` over a JSON object.
JavaScript visits integer-like keys first, in ascending numeric order; the
node ids are such keys. The model follows the code and proves that the
source list is ascending by node id.

## Model

| member | source | states |
|---|---|---|
| PriorityQueues.PriorityQueue.constructor | ryu/app/distribution/route/util.py:8-9 | a new queue holds no entries |
| PriorityQueues.PriorityQueue.Push | ryu/app/distribution/route/util.py:11-12 | the entry is added once: the multiset of entries grows by exactly that entry |
| PriorityQueues.PriorityQueue.Pop | ryu/app/distribution/route/util.py:14-15 | on a non-empty heap the result is an entry no greater (as a Python tuple) than any queued entry, and exactly one copy of it leaves the queue; an empty heap gives None (the IndexError) |
| PriorityQueues.LeastIndex | ryu/app/distribution/route/util.py:14-15 | the position returned holds an entry no greater than every entry of the container |
| PriorityQueues.EntryLeTotal | ryu/app/distribution/route/util.py:14-15 | any two (distance, node) entries are comparable, so a least entry exists |
| PllWeighted.MinOverHubs | ryu/app/distribution/route/pll_weighted.py:61-64 | the minimum over the common hubs is at most every sum L[u][x] + L[v][x], is attained by one of them, and is inf exactly when there is no common hub |
| PllWeighted.QueryDistance | ryu/app/distribution/route/pll_weighted.py:53-64 | inf when u or v has no label; otherwise a lower bound of every hub sum, attained by a common hub, and inf exactly when find_hub is empty |
| PllWeighted.QueryDistanceSymmetric | ryu/app/distribution/route/pll_weighted.py:53-64 | query_distance(L, u, v) equals query_distance(L, v, u) |
| PllWeighted.QueryDistanceSound | ryu/app/distribution/route/pll_weighted.py:53-64 | with sound labels a finite answer is the weight bound of a real walk between u and v |
| PllWeighted.SetLabel | ryu/app/distribution/route/pll_weighted.py:27 | `L[u][vk] = D[u]`: row u gets the entry, every other row is unchanged |
| PllWeighted.RelaxNeighbours | ryu/app/distribution/route/pll_weighted.py:28-31 | tentative distances only decrease, stay walk weights from the root, and every queued entry bounds its vertex |
| PllWeighted.SettleVertex | ryu/app/distribution/route/pll_weighted.py:25-31 | a vertex the labels already answer is pruned (labels, distances and queue untouched); otherwise L[u][vk] = D[u] and the neighbours are relaxed; only hub vk entries change and each new one is a walk weight |
| PllWeighted.PrunedDijkstra | ryu/app/distribution/route/pll_weighted.py:14-31 | only entries with hub vk change, only in rows of graph vertices, and every entry written is the weight of a real walk from vk |
| PllWeighted.WeightedPll | ryu/app/distribution/route/pll_weighted.py:6-11 | one label per vertex, and every label entry L[v][x] bounds the weight of a walk from x to v |
| PllWeighted.Dijkstra | ryu/app/distribution/route/pll_weighted.py:34-50 | one distance per vertex, each finite one a walk weight from s; with non-negative weights d[s] = 0 and every d[v] is the least walk weight from s |
| PllWeighted.DijkstraRelax | ryu/app/distribution/route/pll_weighted.py:45-49 | relaxing u's neighbours lowers distances only, keeps them walk weights and keeps settled vertices settled and relaxed |
| PllWeighted.RelaxEdge | ryu/app/distribution/route/pll_weighted.py:46-49 | d[v] becomes d[u] + w(u, v) and (d[v], v) is queued exactly when that is smaller; otherwise nothing changes |
| PllWeighted.EmptyQueueShortest | ryu/app/distribution/route/pll_weighted.py:40-50 | when the queue is empty and every settled vertex is relaxed, the distances are shortest |
| PllWeighted.RelaxedBoundsWalks | ryu/app/distribution/route/pll_weighted.py:45-49 | in a relaxed table no walk from s is lighter than the distance of its end |
| PllWeighted.DijkstraPop | ryu/app/distribution/route/pll_weighted.py:41-44 | the popped entry is finite and in range; popping keeps the queue bounded and, for an unsettled vertex, its entry equals its distance |
| PllWeighted.DijkstraSettle | ryu/app/distribution/route/pll_weighted.py:41-44 | with non-negative weights a vertex popped for the first time is at least as far as every settled vertex |
| Common.AfterLastEthOfPort | ryu/app/distribution/prepare3_distribution_info.py:42 | `name.split('eth')[-1]` of a port name ending in "eth" and digits is those digits |
| Common.ParsePyIntOfString | ryu/app/distribution/prepare3_distribution_info.py:51 | `int(str(i))` gives i back, for every integer |
| Common.SortedSet | ryu/app/distribution/route/inc_pll_weighted.py:11-12 | `list(set)` then `sort()`: strictly increasing, the same members, one position per member |
| Walks.ConcatWalks | ryu/app/distribution/route/pll_weighted.py:28-31 | a walk from a to b followed by one from b to c is a walk from a to c of the summed weight |
| Walks.ReverseWalk | ryu/app/distribution/route/pll_weighted.py:27 | in an undirected graph a walk read backwards has the same weight, so labels can be read in either direction |
| Walks.CoveredWalk | ryu/app/distribution/route/inc_pll_weighted.py:10-19 | a walk bound survives adding an edge or lowering a weight |
| IncPll.PrefixalQuery | ryu/app/distribution/route/inc_pll_weighted.py:33-39 | the least hub sum over common hubs numbered at most k: a lower bound of each such sum, attained by one, inf exactly when no common hub is at most k |
| IncPll.PrefixalQueryBoundsQuery | ryu/app/distribution/route/inc_pll_weighted.py:33-39 | the full query is never above the prefixal one, and the two agree when no common hub exceeds k |
| IncPll.PushNeighbours | ryu/app/distribution/route/inc_pll_weighted.py:29-30 | every entry queued names a graph vertex and, from a walk-bound start, bounds a walk from the root |
| IncPll.ResumePbfs | ryu/app/distribution/route/inc_pll_weighted.py:22-30 | only entries with hub `root` change, no entry is deleted, rows outside the graph stay, from a walk-bound start every entry written is a walk weight, and every entry written is below the prefixal query (root, v) over the hubs smaller than root |
| IncPll.PrefixalQueryBelowRoot | ryu/app/distribution/route/inc_pll_weighted.py:27 | while only hub-`root` entries change, the prefixal query up to root is at most the original prefixal query over the smaller hubs |
| IncPll.PrunedStep | ryu/app/distribution/route/inc_pll_weighted.py:27-28 | a write that passed the test `d < prefixal_query(l0, root, u, root)` keeps every written entry below the original query over the smaller hubs |
| IncPll.ResumeIfHub | ryu/app/distribution/route/inc_pll_weighted.py:15-18 | resuming from hub v of a or b changes only hub v entries, deletes nothing and keeps sound labels sound |
| IncPll.IncPllW | ryu/app/distribution/route/inc_pll_weighted.py:10-19 | only entries whose hub labels a or b change, no entry is deleted, the rows are the same, and sound labels stay sound in the new graph |
| IncPll.Verify | ryu/app/distribution/route/inc_pll_weighted.py:42-50 | the reported mismatches are exactly the node pairs whose two query answers differ, each with both answers |
| RouteUtil.Mismatches | ryu/app/distribution/route/util.py:23-28 | every reported tuple is a pair of listed nodes whose expected and got values differ, and every such pair is reported |
| RouteUtil.VerifyLabels | ryu/app/distribution/route/util.py:21-28 | as Mismatches, with the expected value the shortest-path distance when use_sp holds and the correct labelling's query otherwise |
| DecPll.MarkNeighbours | ryu/app/distribution/route/dec_pll_weighted.py:22-29 | the neighbour loop of affected: the search invariant is kept, marks only grow, and afterwards every neighbour of v is either marked or fails the qualifying test |
| DecPll.Affected | ryu/app/distribution/route/dec_pll_weighted.py:11-30 | x is in A, A lies in the graph, every other member is adjacent to a member, and a neighbour of a member left out of A has no common hub with y that passes the endpoint-hub distance test |
| DecPll.RemoveHubs | ryu/app/distribution/route/dec_pll_weighted.py:57-60 | in the rows of vs exactly the hubs of `hubs` are deleted; every other row and every surviving entry is unchanged |
| DecPll.RemoveAffectedLabels | ryu/app/distribution/route/dec_pll_weighted.py:56-65 | exactly the entries pairing a vertex of AX with one of AY (either way round) are deleted; every other entry is unchanged |
| DecPll.SearchSide | ryu/app/distribution/route/dec_pll_weighted.py:70-72 | the searches start from the smaller of AX and AY (AX on a tie) |
| DecPll.TargetSide | ryu/app/distribution/route/dec_pll_weighted.py:70-72 | the targets are the other side |
| DecPll.RestoreFrom | ryu/app/distribution/route/dec_pll_weighted.py:73-94 | one search from root a deletes nothing, writes only entries pairing a with a target, each in the label of the larger vertex with the smaller one as hub, and every entry written is a walk weight; when every vertex labels itself at distance at most 0, no entry grows and every entry written is below the query of the labels it started from |
| DecPll.QueryNoHigher | ryu/app/distribution/route/dec_pll_weighted.py:85 | labels that keep every entry and grow none answer every query at least as well |
| DecPll.LowersWrite | ryu/app/distribution/route/dec_pll_weighted.py:85-89 | one write that beats the current query keeps every entry, grows none and keeps each vertex its own hub at distance at most 0 |
| DecPll.LowersStep | ryu/app/distribution/route/dec_pll_weighted.py:85-89 | a cross write that passed the test `dist[v] < query(L, a, v)` keeps every written entry below the query of the starting labels |
| DecPll.LowersCompose | ryu/app/distribution/route/dec_pll_weighted.py:72-94 | two rounds of such writes compose into one |
| DecPll.GreedyRestore | ryu/app/distribution/route/dec_pll_weighted.py:68-96 | the same facts for all roots of the search side against the target side, with each entry written below the query of the labels greedy_restore was given |
| DecPll.OrderRestoreFrom | ryu/app/distribution/route/dec_pll_weighted.py:104-121 | one search of order_restore writes only hub-a entries between the two sides, each a walk weight; when the root is marked before its first pop the labels come back unchanged |
| DecPll.OrderRestoreSearch | ryu/app/distribution/route/dec_pll_weighted.py:99-122 | the roots in ascending order: nothing deleted, writes only between the sides, every write a walk weight; unchanged labels when each root is marked first |
| DecPll.OrderRestore | ryu/app/distribution/route/dec_pll_weighted.py:99-122 | as written, order_restore returns its labels unchanged |
| DecPll.OrderRestoreIntended | ryu/app/distribution/route/dec_pll_weighted.py:99-122 | with the root marked at its first pop instead, the restore deletes nothing, writes only between the sides and writes walk weights |
| DecPll.DecPllW | ryu/app/distribution/route/dec_pll_weighted.py:125-130 | x in AX, y in AY; every entry not pairing the sides survives unchanged and nothing else is left from before; every entry pairing the sides sits in the label of the larger vertex with the smaller one as hub and is a walk weight; labels sound outside the pairs end up sound |
| DecPll.CrossSides | ryu/app/distribution/route/dec_pll_weighted.py:70-72 | pairing the search side with the target side is the same as pairing AX with AY |
| FullPll.WithEdge | ryu/app/distribution/route/full_pll.py:35 | the edge u-v gets weight w in both directions; every other adjacency and weight is unchanged |
| FullPll.WithoutEdge | ryu/app/distribution/route/full_pll.py:47 | the edge u-v is gone in both directions; every other adjacency and weight is unchanged |
| FullPll.WithEdgeUndirected | ryu/app/distribution/route/full_pll.py:35 | adding or reweighting an edge keeps the graph undirected |
| FullPll.WithoutEdgeUndirected | ryu/app/distribution/route/full_pll.py:47 | removing an edge keeps the graph undirected |
| FullPll.LighterEdgeKeepsSound | ryu/app/distribution/route/full_pll.py:35-37 | an added edge, or an edge made no heavier, keeps every label a walk weight, so labels that were sound stay sound |
| FullPll.FullPLL.constructor | ryu/app/distribution/route/full_pll.py:8-13 | stamp 0, empty cache, labels for exactly the vertices of g, and every label is a walk weight |
| FullPll.FullPLL.NextStamp | ryu/app/distribution/route/full_pll.py:15-17 | the stamp goes up by one and the cache is emptied; graph and labels unchanged |
| FullPll.FullPLL.Query | ryu/app/distribution/route/full_pll.py:19-22 | the answer is the label query of (u, v), and the cache then maps (u, v) to it with every other entry kept |
| FullPll.FullPLL.AddEdge | ryu/app/distribution/route/full_pll.py:25-37 | a missing endpoint or an existing edge changes nothing; otherwise the edge is added, the stamp moves on, the cache is emptied, and sound labels stay sound |
| FullPll.FullPLL.RemoveEdge | ryu/app/distribution/route/full_pll.py:40-49 | a missing edge changes nothing; otherwise the edge is removed, the stamp moves on, the cache is emptied, and every label is either kept from before or a walk weight in the new graph |
| FullPll.FullPLL.ChangeEdgeWeight | ryu/app/distribution/route/full_pll.py:51-65 | a missing edge changes nothing; otherwise the weight is set, the stamp moves on and the cache is emptied; a lighter edge keeps sound labels sound, a heavier one leaves every label kept or a walk weight |
| Floyd.LowerToEdge | ryu/app/distribution/route/heat_degree_matrix.py:194-196 | one edge update: the entry becomes the smaller of the edge weight and the old entry, and the table stays complete and sound |
| Floyd.LowerToEdges | ryu/app/distribution/route/heat_degree_matrix.py:192-196 | after the edge loop the table is complete, every finite entry is a walk weight, the diagonal is at most 0 and every edge entry is at most its weight |
| Floyd.RelaxPair | ryu/app/distribution/route/heat_degree_matrix.py:202-204 | the entry u-v ends at most dist[u][w] + dist[w][v]; no entry grows; complete, sound and bounded are kept |
| Floyd.RelaxThrough | ryu/app/distribution/route/heat_degree_matrix.py:197-204 | one pass through intermediate w keeps the table complete, sound and bounded |
| Floyd.GeneralFloyd2 | ryu/app/distribution/route/heat_degree_matrix.py:180-205 | the result has an entry for every ordered pair of nodes, each finite entry is the weight of a real walk, the diagonal is at most 0 and an edge's entry at most its weight |
| Floyd.LowerKeeps | ryu/app/distribution/route/heat_degree_matrix.py:194-204 | lowering an entry to a walk weight keeps the table complete and sound and raises nothing |
| HeatDegree.RemoveNode | ryu/app/distribution/route/heat_degree_matrix.py:297 | the node and every arc into or out of it disappear, and nothing else changes |
| HeatDegree.PathHasEdge | ryu/app/distribution/route/heat_degree_matrix.py:100-105 | true exactly when some consecutive pair of the path is the edge u-v in either direction |
| HeatDegree.IsRoutingContainsEdge | ryu/app/distribution/route/heat_degree_matrix.py:94-106 | false for a source without a tree; for a tree graph, true iff it has the arc u-v or v-u; for per-receiver paths, true iff some path has the edge between consecutive nodes |
| HeatDegree.IsRoutingContainsEdgeSymmetric | ryu/app/distribution/route/heat_degree_matrix.py:94-106 | the answer does not depend on the orientation of the edge |
| HeatDegree.GetEstimate | ryu/app/distribution/route/heat_degree_matrix.py:59-65 | the three cases: source at an end, receiver at an end, or neither, each as the label-query expression the source adds up |
| HeatDegree.EstimateIsAchievable | ryu/app/distribution/route/heat_degree_matrix.py:59-65 | with sound labels every finite estimate is the weight bound of a real walk from s to r |
| HeatDegree.IncCount | ryu/app/distribution/route/heat_degree_matrix.py:48-52 | s's counter becomes 1 when new and one more otherwise; every other counter is unchanged |
| HeatDegree.DecCount | ryu/app/distribution/route/heat_degree_matrix.py:54-57 | an absent s changes nothing; a present one is lowered by one; every other counter is unchanged |
| HeatDegree.DecUndoesInc | ryu/app/distribution/route/heat_degree_matrix.py:48-57 | decrementing after incrementing restores the counters, except that a new source stays with count 0 |
| HeatDegree.Ordered | ryu/app/distribution/route/heat_degree_matrix.py:79 | the pair in ascending order, holding the same two nodes |
| HeatDegree.SumRequireRemove | ryu/app/distribution/route/heat_degree_matrix.py:110-112 | the bandwidth sum over a set of sources splits off any one member's requirement |
| HeatDegree.HeatDegreeBase.constructor | ryu/app/distribution/route/heat_degree_matrix.py:18-32 | the fields hold the given graph, bandwidths, requirements, relevance, heat, routing trees and labels |
| HeatDegree.HeatDegreeBase.IncRelevance | ryu/app/distribution/route/heat_degree_matrix.py:48-52 | only the edge's relevance counters change, by IncCount |
| HeatDegree.HeatDegreeBase.DecRelevance | ryu/app/distribution/route/heat_degree_matrix.py:54-57 | only the edge's relevance counters change, by DecCount |
| HeatDegree.HeatDegreeBase.CheckBandwidthLimit | ryu/app/distribution/route/heat_degree_matrix.py:108-113 | the sum is the total requirement of the sources relevant to the edge, and available holds iff it fits the edge's bandwidth |
| HeatDegree.HeatDegreeBase.GetHeatDegreeIJ | ryu/app/distribution/route/heat_degree_matrix.py:78-92 | an irrelevant source sees inf; a relevant one sees the no-congestion heat when the edge is in its tree or available, and the congested heat otherwise |
| HeatDegree.HeatDegreeBase.GetHeatDegreeSymmetric | ryu/app/distribution/route/heat_degree_matrix.py:78-92 | the heat does not depend on the orientation of the edge |
| HeatDegree.PruneChainRemovesNonTerminals | ryu/app/distribution/route/heat_degree_matrix.py:289-298 | pruning only removes nodes together with their arcs, and no terminal is ever removed |
| HeatDegree.LeafReceiverRaises | ryu/app/distribution/route/heat_degree_matrix.py:293-296 | as written, pruning from a receiver that is a leaf of the directed tree finds no successor and raises StopIteration |
| HeatDegree.LeafReceiverExample | ryu/app/distribution/route/heat_degree_matrix.py:293-296 | on the tree 1 -> 2 with receiver 2, the as-written pruning raises, while following the edge either way removes 2 and leaves 1 |
| HeatDegree.PruneChainBothWaysCompletes | ryu/app/distribution/route/heat_degree_matrix.py:289-298 | following the one adjacent node in either direction, pruning always completes |
| HeatDegree.HeatDegreeModel.constructor | ryu/app/distribution/route/heat_degree_matrix.py:209-217 | the model holds the given base, receivers and delay limits |
| HeatDegree.HeatDegreeModel.RemoveRecvFromRoutingTrees | ryu/app/distribution/route/heat_degree_matrix.py:289-298 | r leaves s's receivers and s's tree becomes the pruned tree with the remaining receivers and s as terminals; nothing else changes |
| HeatDegree.HeatDegreeModel.RemoveRecv | ryu/app/distribution/route/heat_degree_matrix.py:272-287 | an unknown source or receiver changes nothing; otherwise r leaves s's receivers, s's tree becomes the pruned tree, and s's counter is lowered on exactly the edges whose estimate is within s's delay limit; graph, labels, bandwidths, bandwidth requirements and heat entries stay as they were |
| HeatDegree.HeatDegreeModel.LowerRelevance | ryu/app/distribution/route/heat_degree_matrix.py:277-282 | s's counter is lowered on exactly the edges whose estimate is within s's delay limit, and nothing else of the base changes |
| HeatDegree.Lowered | ryu/app/distribution/route/heat_degree_matrix.py:278-282 | the relevance map keeps its edges |
| HeatDegree.ConvertRoutingTree | ryu/app/distribution/route/heat_degree_matrix.py:368-383 | the directed tree only grows, every added node and arc comes from the undirected tree, a root of 0 changes nothing and the root is added; when the undirected tree is oriented towards a root and the walk enters `root` from its parent (or from nowhere at that root), every new arc runs from a node's parent to the node |
| HeatDegree.ArcsDownOriented | ryu/app/distribution/route/heat_degree_matrix.py:368-383 | for arcs that run from parent to child: the root gets no new in-arc, no node gets two, each new arc goes one edge of the tree away from the root, and no new arc is added in both directions |
| HeatDegree.StepDown | ryu/app/distribution/route/heat_degree_matrix.py:373-382 | a step to a neighbour other than `pre` enters that neighbour from its parent |
| HeatDegree.PathRootedExample | ryu/app/distribution/route/heat_degree_matrix.py:368-383 | the path 1 - 2 - 3 is oriented towards 1 by the parents 2 -> 1 and 3 -> 2 |
| Kmb.WeightFunction | ryu/app/distribution/route/relavence_matrix.py:4-7 | a callable weight is applied to (u, v, G[u][v]); a name reads that attribute, and a missing attribute is None (the KeyError) |
| Kmb.ByNameIsReader | ryu/app/distribution/route/relavence_matrix.py:4-7 | reading a present attribute by name is the same as calling a function that reads it |
| Kmb.AddEdge | ryu/app/distribution/route/relavence_matrix.py:28 | `Graph.add_edge`: both endpoints become nodes, the edge gets weight w in both directions, and every other edge is kept with its weight and none is added |
| Kmb.AddPairStep | ryu/app/distribution/route/relavence_matrix.py:24-28 | adding the pair (i, j) extends the covered pairs by one and keeps G1 undirected and every edge witnessed by a terminal pair |
| Kmb.BuildG1 | ryu/app/distribution/route/relavence_matrix.py:19-28 | G1 is undirected, every pair of terminal positions i < j has an edge carrying their distance, every edge of G1 joins two terminals, and its weight is the distance of the last pair of positions, in loop order, that names those two terminals |
| Kmb.Leaves | ryu/app/distribution/route/relavence_matrix.py:56-61 | exactly the nodes of degree 1 that are not terminals |
| Kmb.WalkIntended | ryu/app/distribution/route/relavence_matrix.py:63-69 | the intended walk never hits a node already removed |
| Kmb.WalkIntendedKeepsTerminals | ryu/app/distribution/route/relavence_matrix.py:63-69 | the intended walk only removes nodes with their edges and keeps every terminal |
| Kmb.PruneIntendedKeepsTerminals | ryu/app/distribution/route/relavence_matrix.py:54-69 | the intended pruning over any leaf order completes, removes only nodes with their edges and keeps every terminal |
| Kmb.PruneRemovesTerminalsExample | ryu/app/distribution/route/relavence_matrix.py:63-69 | on the path a-b-c with terminals b and c, the only leaf is a; as written the walk removes a, then b, then c, leaving no node, while the intended walk keeps b-c |
| Kmb.PruneLeaves | ryu/app/distribution/route/relavence_matrix.py:54-69 | the loop computes the intended pruning of the non-terminal leaves in ascending order; it never reaches a removed node, only removes nodes with their edges, and keeps every terminal |
| Kmb.PathAsWritten | ryu/app/distribution/route/relavence_matrix.py:63-69 | as written, pruning the path a-b-c from the leaf a removes every node |
| Kmb.EdgeAsWritten | ryu/app/distribution/route/relavence_matrix.py:63-69 | as written, the walk from b on the single edge b-c removes b and then c |
| Kmb.PathIntended | ryu/app/distribution/route/relavence_matrix.py:63-69 | the intended pruning of the path a-b-c removes only a and keeps the edge b-c |
| ExperimentSetup.GroupIpInjective | ryu/app/distribution/prepare1_graph_info.py:24 | two group numbers with the same group address are equal |
| ExperimentSetup.MulticastInfo.constructor | ryu/app/distribution/prepare1_graph_info.py:14-20 | the sources are numbered 1..n in their iteration order, each with its address, and the next number is n + 1 |
| ExperimentSetup.MulticastInfo.AddGroup | ryu/app/distribution/prepare1_graph_info.py:22-25 | the source gets the current number and the address `224.0.1.<no>`, the counter goes up by one, and the registry stays consistent |
| ExperimentSetup.GroupIpsDistinct | ryu/app/distribution/prepare1_graph_info.py:22-25 | in a consistent registry two sources never share a group address |
| ExperimentSetup.Shift | ryu/app/distribution/prepare1_graph_info.py:54-55 | every edge endpoint is renumbered by +1, keeping the edge order |
| ExperimentSetup.FromEdgesNodes | ryu/app/distribution/prepare1_graph_info.py:54-55 | a node of the graph built by `add_edge` is exactly an endpoint of some edge |
| ExperimentSetup.FromEdgesJoins | ryu/app/distribution/prepare1_graph_info.py:54-55 | two nodes are adjacent exactly when some edge joins them in either orientation |
| ExperimentSetup.Renumber | ryu/app/distribution/prepare1_graph_info.py:52-55 | the loop builds the graph of the shifted edges |
| ExperimentSetup.RenumberNodes | ryu/app/distribution/prepare1_graph_info.py:52-55 | u is a node of the renumbered graph iff u - 1 is an endpoint of an input edge |
| ExperimentSetup.RenumberJoins | ryu/app/distribution/prepare1_graph_info.py:52-55 | u and v are adjacent in the renumbered graph iff u - 1 and v - 1 are joined by an input edge |
| ExperimentSetup.AssignControllers | ryu/app/distribution/prepare1_graph_info.py:80-84 | the loop builds the controller lists and the switch-to-controller map of the draws |
| ExperimentSetup.SwToCidKeys | ryu/app/distribution/prepare1_graph_info.py:80-84 | every node, and nothing else, gets a controller |
| ExperimentSetup.AssignmentPartitions | ryu/app/distribution/prepare1_graph_info.py:80-84 | for distinct nodes, n is in controller c's list iff n's controller is c, so each node is in exactly one list |
| ExperimentSetup.SingleController | ryu/app/distribution/prepare1_graph_info.py:76-84 | with one controller every node is assigned controller 1 |
| ExperimentSetup.SwToCidIsADraw | ryu/app/distribution/prepare1_graph_info.py:80-84 | every assigned controller is one of the draws |
| ExperimentSetup.NumberSources | ryu/app/distribution/prepare1_graph_info.py:86-90 | the sources are numbered 1.. in iteration order, and only they |
| ExperimentSetup.SrcToGroupIp | ryu/app/distribution/prepare1_graph_info.py:109-110 | a numbered source gets `224.0.1.` followed by its number in decimal; an unknown source is None (the KeyError) |
| ExperimentSetup.NumberedSourcesHaveDistinctIps | ryu/app/distribution/prepare1_graph_info.py:86-90 | two positions of the source list get different group addresses |
| ExperimentSetup.SetRandomBw | ryu/app/distribution/prepare1_graph_info.py:141-147 | every edge gets a bandwidth, its draw when edges are distinct, and the total is the sum of the draws, which is the sum of the bandwidths assigned |
| ExperimentSetup.SumOverDraws | ryu/app/distribution/prepare1_graph_info.py:141-147 | the sum of the assigned bandwidths equals the sum of the draws |
| ExperimentSetup.SumBounds | ryu/app/distribution/prepare1_graph_info.py:57-62 | draws within [lo, hi] give a total between lo and hi times the number of edges |
| ExperimentSetup.Receivers.constructor | ryu/app/distribution/prepare1_graph_info.py:65 | the receiver map is the one given |
| ExperimentSetup.Receivers.AddRandomR | ryu/app/distribution/prepare1_graph_info.py:112-119 | the receiver added is the first draw not yet a receiver of s, and it is the only change |
| ExperimentSetup.Receivers.RemoveRandomR | ryu/app/distribution/prepare1_graph_info.py:121-125 | an empty receiver set raises and changes nothing; otherwise the chosen receiver was present and is the only one removed |
| ExperimentSetup.AddThenRemove | ryu/app/distribution/prepare1_graph_info.py:112-125 | removing the receiver just added restores the receiver map |
| ExperimentSetup.NoUpdatePending | ryu/app/mobility/prepare1_graph_info.py:187-190 | without a pending update the reply is (False, None) and nothing changes |
| ExperimentSetup.DeliveredOnce | ryu/app/mobility/prepare1_graph_info.py:187-193 | a pending update is delivered as (True, g), and the very next call gets (False, None) |
| ExperimentSetup.UpdateThenDeliver | ryu/app/mobility/prepare1_graph_info.py:196-207 | a non-isomorphic graph is delivered by the next call; an isomorphic one changes nothing |
| ExperimentSetup.GraphInfoServer.constructor | ryu/app/mobility/prepare1_graph_info.py:177-181 | no update pending and no graph stored |
| ExperimentSetup.GraphInfoServer.LatestGraphCall | ryu/app/mobility/prepare1_graph_info.py:187-193 | the fields and reply follow the one-shot rule of latest_graph |
| ExperimentSetup.GraphInfoServer.UpdateGraphRound | ryu/app/mobility/prepare1_graph_info.py:198-207 | the fields follow one round of update_graph |
| Timestamps.ReverseLowDigits | ryu/app/mobility/send.cpp:32-37 | reversing the digits collected least significant first gives the decimal digits most significant first |
| Timestamps.GetNowtime | ryu/app/mobility/send.cpp:27-39 | the payload is the decimal digits of the clock value, most significant first |
| Timestamps.DigitsShape | ryu/app/mobility/send.cpp:32-37 | every digit is in 0..9, the payload is empty exactly for 0, and a positive value has no leading zero |
| Timestamps.DecodeULong | ryu/app/mobility/recv.cpp:26-30 | the accumulator is an `unsigned long`, so the result lies in [0, 2^64) |
| Timestamps.DecodeDigits | ryu/app/mobility/recv.cpp:26-30 | decoding the digits of n, left to right as pre*10 + digit, gives back n |
| Timestamps.DecodeULongDigits | ryu/app/mobility/recv.cpp:26-30 | with the 64-bit wrap-around, decoding the digits of any n below 2^64 gives back n |
| Timestamps.DecodeEmpty | ryu/app/mobility/recv.cpp:27 | the empty payload decodes to 0 |
| Timestamps.Consume | ryu/app/mobility/recv.cpp:15-50 | the handler always returns true; a payload is decoded exactly when present; a record is written exactly when there is a payload and a non-empty IP source, holding that address and seconds*1000000 + microseconds |
| Timestamps.ProbeRoundTrip | ryu/app/mobility/recv.cpp:26-45 | a probe sent with timestamp t below 2^64 from a known address is decoded back to t and produces a record |
| Timestamps.Bits8 | ryu/app/mobility/send.cpp:49 | `bitset<8>(octet).to_string()` has eight characters |
| Timestamps.OctetsBits | ryu/app/mobility/send.cpp:48-51 | eight bits per octet |
| Timestamps.BinaryString | ryu/app/mobility/send.cpp:43-51 | the loop concatenates the 8-bit renderings of the octets in order |
| Timestamps.Substr | ryu/app/mobility/send.cpp:54 | a substring is never longer than asked; a start past the end is None (the out_of_range) |
| Timestamps.Hex2 | ryu/app/mobility/send.cpp:59-61 | two hex digits for a value below 256 |
| Timestamps.Hex2Injective | ryu/app/mobility/send.cpp:59-61 | different values give different two-digit hex strings |
| Timestamps.Field | ryu/app/mobility/send.cpp:59-61 | each MAC field is read from two bits, so it is below 4 |
| Timestamps.Ipv4MulticastToMac | ryu/app/mobility/send.cpp:41-64 | the method computes the MAC string from the 32-bit binary rendering of the address |
| Timestamps.MacAsWrittenShape | ryu/app/mobility/send.cpp:54-61 | for four octets the result is `01:00:5E:` followed by three fields, each 00..03 |
| Timestamps.MacAsWrittenIgnoresLowOctets | ryu/app/mobility/send.cpp:54-61 | the MAC depends only on the second octet: the third and fourth are ignored |
| Timestamps.GroupMacsCollide | ryu/app/mobility/send.cpp:54-61 | every group address 224.0.1.x maps to the same MAC |
| Timestamps.Rfc1112MacInjective | ryu/app/mobility/send.cpp:53-58 | the mapping of section 6.4 of RFC 1112 (the low 23 bits of the address in the low 23 bits of 01-00-5E-00-00-00) determines those 23 bits |
| Timestamps.Rfc1112GroupMacsDistinct | ryu/app/mobility/send.cpp:53-58 | under that mapping the group addresses 224.0.1.x get distinct MACs |
| SwitchTables.ArpStep | ryu/app/distribution/controller.py:194-210 | the packet is dropped, with the tables unchanged, exactly when its key was seen before on another port; the first port per (dpid, source MAC, target IP) is kept; otherwise the source MAC is learned on dpid's table only and the out port is the learned port of the destination MAC or FLOOD |
| SwitchTables.Learn | ryu/app/distribution/controller.py:206-210 | learning leaves the ARP tables alone and always yields an out port |
| SwitchTables.ArpFirstPortWins | ryu/app/distribution/controller.py:199-204 | after a first ARP on port p, the same ARP on another port q is dropped and changes nothing |
| SwitchTables.ArpStepIdempotent | ryu/app/distribution/controller.py:194-210 | repeating an ARP on the same port changes nothing further and gives the same out port |
| SwitchTables.StateChange | ryu/app/distribution/controller.py:119-129 | MAIN registers the datapath only when absent, DEAD unregisters it only when present, any other state changes nothing, and no other entry changes |
| SwitchTables.RegisterThenUnregister | ryu/app/distribution/controller.py:119-129 | registering a new datapath and then unregistering it restores the registry |
| SwitchTables.IpOutPort | ryu/app/distribution/controller.py:237-244 | an IP packet is forwarded exactly when dpid has a MAC table holding the destination, to that port |
| SwitchTables.LearnedMacForwards | ryu/app/distribution/controller.py:206-244 | after an accepted ARP from a MAC, IP packets to that MAC on the same switch go to the port it arrived on |
| SwitchTables.Classify | ryu/app/distribution/controller.py:228-237 | ARP and IPv4 are told apart by their ethertypes; everything else is ignored |
| SwitchTables.Learning.constructor | ryu/app/distribution/controller.py:119-129 | empty tables and no datapaths |
| SwitchTables.Learning.HandleArp | ryu/app/distribution/controller.py:194-210 | the tables and the out port are those of one ARP step; the registry is unchanged |
| SwitchTables.Learning.OnStateChange | ryu/app/distribution/controller.py:119-129 | the registry follows StateChange; the tables are unchanged |
| SwitchTables.Learning.PacketIn | ryu/app/distribution/controller.py:212-244 | ARP runs the ARP step, IPv4 only looks up the out port, everything else is dropped; the registry is unchanged |
| MobilityController.FindEthFrom | ryu/app/mobility/controller.py:107 | the first position from `from` on where `eth` occurs, or -1 when there is none |
| MobilityController.FindEth | ryu/app/mobility/controller.py:107 | `str.find('eth')`: the first occurrence, or -1 |
| MobilityController.MininetNamesParse | ryu/app/mobility/controller.py:106-107 | for Mininet names `s<n>` and `s<n>-eth<p>` the node id is n and the port is p |
| MobilityController.ParseLink | ryu/app/mobility/controller.py:105-107 | a tuple without exactly eight fields is rejected |
| MobilityController.ParseGraph | ryu/app/mobility/controller.py:97-115 | the loop computes the view of the links applied left to right from nodes 1..8, or the error of a rejected link |
| MobilityController.ParsedLinks | ryu/app/mobility/controller.py:105-107 | the link list parses exactly when every tuple does, and then link k is the parse of tuple k |
| MobilityController.FoldIsApply | ryu/app/mobility/controller.py:105-110 | parse_graph fails exactly when some tuple is rejected, and otherwise applies the parsed links in order |
| MobilityController.ApplyShape | ryu/app/mobility/controller.py:105-110 | applying links adds exactly their endpoints as nodes, both orientations of each link to the port map, and their pairs to the edges |
| MobilityController.ParseGraphNodes | ryu/app/mobility/controller.py:101-108 | the nodes of a parsed graph are exactly 1..8 and the endpoints of its links |
| MobilityController.LastLinkPorts | ryu/app/mobility/controller.py:108-110 | for the last link over a pair, `dpid_to_port[(dst, src)]` is its dst port and, unless it is a self-loop, `dpid_to_port[(src, dst)]` is its src port |
| MobilityController.ServedTuple | ryu/app/mobility/prepare2_custom_mn_topo.py:67-80 | the experiment server serves six fields per link |
| MobilityController.ServedLinksRejected | ryu/app/mobility/controller.py:105 | parse_graph rejects every non-empty list of the six-field tuples the experiment server serves |
| MobilityController.ServedTupleIntended | ryu/app/mobility/controller.py:105 | the eight fields parse_graph unpacks: the six served fields, then bandwidth and delay |
| MobilityController.ServedIntendedParses | ryu/app/mobility/controller.py:105-107 | a Mininet-named switch link served with its bandwidth and delay parses to its two switches, both out-ports, its delay and its bandwidth |
| MobilityController.LinkNamesParse | ryu/app/mobility/controller.py:106-107 | Mininet names of both ends read back as their switch numbers and ports |
| MobilityController.ParseLinkOf | ryu/app/mobility/controller.py:105-107 | eight fields whose names, ports, bandwidth and delay read back parse to exactly that link |
| MobilityController.ReachableReceivers | ryu/app/mobility/controller.py:83-88 | every source is kept, and r stays a receiver of s exactly when there is a path from s to r |
| MobilityController.OutPorts | ryu/app/mobility/controller.py:290-292 | the ports toward the successors in successor order, then port 1 exactly when cur is a receiver; a missing port pair is a KeyError (None) |
| MobilityController.InstallTreeSound | ryu/app/mobility/controller.py:286-304 | every message sent goes to a connected switch in the tree; a group lists the ports toward its successors, plus the host port exactly for a receiver; a host flow goes only to a receiver without successors |
| MobilityController.InstallTreeComplete | ryu/app/mobility/controller.py:286-304 | when the walk completes, every node on a successor path from the start got what it is owed: a node with successors has its out-ports and, when connected, its group and flow; a connected receiver without successors has its host flow |
| MobilityController.InstallChildrenComplete | ryu/app/mobility/controller.py:302-304 | the same for the walks started from a list of successors |
| MobilityController.RootGroupFirst | ryu/app/mobility/controller.py:289-302 | a connected root with successors gets its group first |
| MobilityController.ArpUnderLockAsWritten | ryu/app/mobility/controller.py:176-188 | as written, the handler blocks when the lock is held, and it leaves the lock held exactly when it drops a repeat on another port |
| MobilityController.ArpUnderLock | ryu/app/mobility/controller.py:176-188 | with the lock released on every path, the handler does the ARP step and leaves the lock free |
| MobilityController.EchoLeavesLockHeld | ryu/app/mobility/controller.py:181-182 | as written, one ARP seen again on another port leaves the lock held, and every later ARP blocks |
| MobilityController.ArpUnderLockNeverBlocks | ryu/app/mobility/controller.py:176-188 | with the release on the early return, a handler that starts with the lock free leaves it free, so the next one runs |
| MobilityController.MobilityApp.constructor | ryu/app/mobility/controller.py:56-67 | empty tables and registry, the experiment graph without a port map, experiment not started, lock free |
| MobilityController.MobilityApp.HandleArp | ryu/app/mobility/controller.py:171-190 | the ARP step under the lock, released on every path: blocked when held, otherwise the tables and the reply of one ARP step |
| MobilityController.MobilityApp.LearnArp | ryu/app/mobility/controller.py:177-187 | with the switch tables in a valid state, the new tables and the chosen output port are exactly those of one ARP step (no port when the request came in on a second port); the switches, the view, the experiment flag and the lock are untouched |
| MobilityController.MobilityApp.OnStateChange | ryu/app/mobility/controller.py:123-133 | the registry follows StateChange, and nothing else changes |
| MobilityController.MobilityApp.TopoTrigger | ryu/app/mobility/controller.py:74-91 | as written: blocked while the lock is held; otherwise the lock is taken and stays held; a rejected link list fails with nothing else changed; a parsed one becomes the view, empties the tables and keeps exactly the reachable receivers, and then `clear_entries` raises, so the experiment flag never changes |
| MobilityController.MobilityApp.TopoTriggerIntended | ryu/app/mobility/controller.py:74-95 | with `clear_entries` reading fields MulticastInfo has: a parsed link list becomes the view, empties the tables, keeps exactly the reachable receivers, starts the experiment and releases the lock; blocked and failed runs behave as in TopoTrigger |
| MobilityController.MobilityApp.RebuildView | ryu/app/mobility/controller.py:77-88 | with the lock held: nothing changes when parse_graph raised; otherwise the parsed graph becomes the view, the tables are emptied and exactly the reachable receivers are kept; the lock and the experiment flag are untouched |
| GlobalTopology.AppendIfAbsent | ryu/app/distribution/controller.py:296-302 | the entry ends up listed; a listed entry changes nothing, an absent one is appended at the end; a list without repeats stays so |
| GlobalTopology.FirstIndex | ryu/app/distribution/controller.py:312-315 | the first position whose entry matches, or -1 when none does |
| GlobalTopology.DeleteFirst | ryu/app/distribution/controller.py:312-315 | the first matching entry is deleted and the others keep their order; without a match nothing changes |
| GlobalTopology.UpdateFirst | ryu/app/distribution/controller.py:345-353 | only the first matching entry is replaced |
| GlobalTopology.DeleteFirstLoop | ryu/app/distribution/controller.py:312-315 | the loop with `del` and `break` computes DeleteFirst |
| GlobalTopology.UpdateFirstLoop | ryu/app/distribution/controller.py:360-364 | the loop with assignment and `break` computes UpdateFirst |
| GlobalTopology.RemoveReversedLoop | ryu/app/distribution/controller.py:317-319 | removing while iterating over `reversed(list)` leaves exactly the entries that do not match, in order |
| GlobalTopology.KeepMembers | ryu/app/distribution/controller.py:317-319 | an entry survives the filter iff it was listed and does not match |
| GlobalTopology.RemoveValue | ryu/app/distribution/controller.py:408 | `list.remove` takes out one entry, and raises ValueError (None) exactly when the entry is absent |
| GlobalTopology.RemoveValueDistinct | ryu/app/distribution/controller.py:408 | in a list without repeats, `remove` takes out exactly that entry |
| GlobalTopology.AppendThenRemove | ryu/app/distribution/controller.py:398-408 | adding an absent link and then deleting it restores the list |
| GlobalTopology.MarkExited | ryu/app/distribution/controller.py:250-252 | every controller published by the exited writer is marked not live, and every other entry is unchanged |
| GlobalTopology.MarkExitedOnlyTouchesWriter | ryu/app/distribution/controller.py:250-252 | afterwards a controller is live iff it was live and not published by that writer |
| GlobalTopology.MarkExitedLoop | ryu/app/distribution/controller.py:250-252 | the loop computes MarkExited |
| GlobalTopology.SwitchRemovedAsWritten | ryu/app/distribution/controller.py:320-322 | as written, the removal raises exactly when some host sits on the switch, and no host is removed |
| GlobalTopology.SwitchRemoved | ryu/app/distribution/controller.py:312-322 | the intended removal never raises |
| GlobalTopology.SwitchRemovedClears | ryu/app/distribution/controller.py:312-322 | after the intended removal a port or host is listed iff it was listed and is not on the switch |
| GlobalTopology.SwitchWithHostRaises | ryu/app/distribution/controller.py:320-322 | one host on the removed switch makes the removal as written raise, with the host still listed |
| GlobalTopology.GlobalTopo.constructor | ryu/app/distribution/controller.py:86 | all five lists empty and the link thread running |
| GlobalTopology.GlobalTopo.OnWriterExit | ryu/app/distribution/controller.py:246-256 | only the controller list changes, by MarkExited |
| GlobalTopology.GlobalTopo.OnSwitchMsg | ryu/app/distribution/controller.py:287-332 | controller id 0 changes nothing; a join appends the controller and the switch when absent; a leave applies the intended switch removal; the links are unchanged |
| GlobalTopology.GlobalTopo.OnPortMsg | ryu/app/distribution/controller.py:334-389 | dpid 0 or an unknown operation changes nothing; an update replaces the first matching port; a delete removes that port, lowers its switch's port count once and removes the first host on it; an add appends when absent |
| GlobalTopology.GlobalTopo.OnLinkMsg | ryu/app/distribution/controller.py:391-414 | a link add appends when absent; a delete removes the link, and an unlisted link raises and ends the thread; src dpid 0 changes nothing |
| GlobalTopology.GlobalTopo.OnHostMsg | ryu/app/distribution/controller.py:416-433 | a host join with a non-zero dpid appends the host when absent; nothing else changes |
| GlobalTopology.KeepDistinct | ryu/app/distribution/controller.py:320-322 | filtering a list without repeats leaves a list without repeats |
| CustomTopo.IpOctets | ryu/app/distribution/prepare2_custom_mn_topo.py:33-36 | the fourth octet lies in 1..254, the third is non-negative for a positive node number, and the two octets give the node number back |
| CustomTopo.IpAddressInjective | ryu/app/distribution/prepare2_custom_mn_topo.py:33-36 | two positive node numbers with the same host address are the same number |
| CustomTopo.NodeNamesDistinct | ryu/app/distribution/prepare2_custom_mn_topo.py:55-56 | the switch and host names `s{n}`/`h{n}` never collide: equal names mean the same kind and the same node |
| CustomTopo.TerminalsSpec | ryu/app/distribution/prepare2_custom_mn_topo.py:48-52 | a node is a terminal exactly when it is a source or a receiver of some source |
| CustomTopo.HostNodesSpec | ryu/app/distribution/prepare2_custom_mn_topo.py:54-65 | a node gets a host exactly when it is a graph node and a terminal |
| CustomTopo.NodesBuiltExtend | ryu/app/distribution/prepare2_custom_mn_topo.py:67-71 | adding links after the node loop leaves its switches, hosts and access links in place |
| CustomTopo.AddNodes | ryu/app/distribution/prepare2_custom_mn_topo.py:54-65 | one switch with the node's dpid per graph node in order, one host with the node's address per terminal node, and each host's access link, in the same order |
| CustomTopo.AddEdgeLinks | ryu/app/distribution/prepare2_custom_mn_topo.py:68-71 | one switch-to-switch link per graph edge in order, carrying the edge's bandwidth and delay when shaped |
| CustomTopo.EdgeLinksAfterHosts | ryu/app/distribution/prepare2_custom_mn_topo.py:54-71 | the node loop's output followed by the edge links is a complete build of the topology |
| CustomTopo.BuildTopo | ryu/app/distribution/prepare2_custom_mn_topo.py:46-71 | `MyTopo.build`: the node loop's switches, hosts and access links, followed by one shaped link per edge carrying that edge's attributes |
| CustomTopo.ShapedLinksAreEdges | ryu/app/distribution/prepare2_custom_mn_topo.py:68-71 | after the access links, a switch link joins s{a} and s{b} exactly when (a, b) is a graph edge, and it carries that edge's bandwidth and delay |
| CustomTopo.AddControllers | ryu/app/mobility/prepare2_custom_mn_topo.py:141-143 | controllers c1 … cN on ports 6633 … 6633+N-1, none when the number is below 1 |
| CustomTopo.ControllerPortsDistinct | ryu/app/mobility/prepare2_custom_mn_topo.py:141-143 | no two controllers share a port |
| CustomTopo.HaveControllers | ryu/app/mobility/prepare2_custom_mn_topo.py:149 | true exactly when every node has an entry in sw_to_cid |
| CustomTopo.NetBuiltFrom | ryu/app/mobility/prepare2_custom_mn_topo.py:132-164 | controllers, the node loop's output and the unshaped edge links together are the network `build_net` builds |
| CustomTopo.BuildNet | ryu/app/mobility/prepare2_custom_mn_topo.py:132-164 | fails (the KeyError) exactly when some node has no controller; otherwise the controllers, switches, hosts, access links and one unshaped link per edge |
| CustomTopo.LinkDiff | ryu/app/mobility/prepare2_custom_mn_topo.py:232-234 | the links taken down are current links absent from the next graph, and the links brought up are next links absent from the current one |
| CustomTopo.LinkDiffApplied | ryu/app/mobility/prepare2_custom_mn_topo.py:232-244 | taking down the first set and bringing up the second turns the current links into the next ones |
| CustomTopo.ChangeNetworkRound | ryu/app/mobility/prepare2_custom_mn_topo.py:229-246 | without a newer graph nothing changes; with one, the network loses the links taken down, gains the links brought up and records the next links as current, so a network in step with the current links ends in step with the next |
| CustomTopo.ExpLinks | ryu/app/mobility/prepare2_custom_mn_topo.py:67-80 | one (src, src_port, src_mac, dst, dst_port, dst_mac) tuple per network link, in order, read from its two interfaces |
| DistributionState.Kept | ryu/app/distribution/prepare3_distribution_info.py:49-50 | a link is kept exactly when it is in the list and neither node name contains 'h' |
| DistributionState.BuildSwitches | ryu/app/distribution/prepare3_distribution_info.py:38-45 | the switch loop builds the switch list of SwitchList, or fails where `int` would raise on a port name |
| DistributionState.BuildSwitch | ryu/app/distribution/prepare3_distribution_info.py:39-45 | one switch: the lower-case dpid with its converted ports, or the failure |
| DistributionState.BuildPorts | ryu/app/distribution/prepare3_distribution_info.py:41-44 | the port loop converts every port in order, or fails at the first unreadable port name |
| DistributionState.SwitchListShape | ryu/app/distribution/prepare3_distribution_info.py:38-45 | the switch list fails exactly when some port name of some switch cannot be read; otherwise it has one entry per reported switch, in order, with the dpid in lower case and each port converted in place |
| DistributionState.MininetPortConverts | ryu/app/distribution/prepare3_distribution_info.py:42-43 | a port named `s<a>-eth<p>` gets port number p as lower-case zero-filled hex, the switch dpid in lower case and its MAC as reported |
| DistributionState.BuildInterLinks | ryu/app/distribution/prepare3_distribution_info.py:47-58 | the loop builds the inter-switch link list, or fails where `int` would raise on a name |
| DistributionState.InterLinksStaysNone | ryu/app/distribution/prepare3_distribution_info.py:47-58 | once a link cannot be read, the whole construction fails |
| DistributionState.InterLinksShape | ryu/app/distribution/prepare3_distribution_info.py:47-58 | the construction fails exactly when a kept link cannot be read; otherwise it holds, for each kept link in order, the converted link followed by its reverse |
| DistributionState.InterLinksAvoidHosts | ryu/app/distribution/prepare3_distribution_info.py:49-50 | no entry of the link list names a host |
| DistributionState.SwitchLinkConverts | ryu/app/distribution/prepare3_distribution_info.py:51-56 | a link between `s<a>`/`s<a>-eth<pa>` and `s<b>`/`s<b>-eth<pb>` converts to the lower-case hex dpids and port numbers of a and b, with the lower-case MACs and the node names |
| DistributionState.EndpointOf | ryu/app/distribution/prepare3_distribution_info.py:51-54 | one end `s<a>`/`s<a>-eth<pa>` becomes dpid a and port pa in lower-case hex |
| DistributionState.FilterFails | ryu/app/distribution/prepare3_distribution_info.py:90-102 | a filter loop raises exactly when one of its tests raises |
| DistributionState.FilterMembers | ryu/app/distribution/prepare3_distribution_info.py:90-102 | a filter loop that completes keeps exactly the elements whose test is true |
| DistributionState.OnlineSwitchesSpec | ryu/app/distribution/prepare3_distribution_info.py:90-95 | `switches()` raises exactly when a dpid is not hex; otherwise it returns exactly the switches whose dpid is online |
| DistributionState.OnlineLinksSpec | ryu/app/distribution/prepare3_distribution_info.py:97-102 | with readable dpids, `links()` returns exactly the links whose two ends are online |
| DistributionState.CollectSpec | ryu/app/distribution/prepare3_distribution_info.py:139 | reading all dpids fails exactly when one is not hex, and otherwise yields each dpid's number in order |
| DistributionState.NotSources | ryu/app/distribution/prepare3_distribution_info.py:140-143 | exactly the nodes that are not current sources |
| DistributionState.ParseDpids | ryu/app/distribution/prepare3_distribution_info.py:139 | the loop reads every dpid as a hex number, or fails at one that is not hex |
| DistributionState.FilterNotSources | ryu/app/distribution/prepare3_distribution_info.py:140-143 | the loop keeps the nodes that are not sources, in order |
| DistributionState.RelateAll | ryu/app/distribution/prepare3_distribution_info.py:182-186 | the loop over the trees succeeds exactly when every tree node has a controller, and then gives every current source the controllers of its tree's nodes |
| DistributionState.RelateTree | ryu/app/distribution/prepare3_distribution_info.py:184-186 | one tree's loop succeeds exactly when each node has a controller and its source is current, and then sets the source's related set to its nodes' controllers |
| DistributionState.EnterIdempotent | ryu/app/distribution/prepare3_distribution_info.py:72-78 | entering twice is entering once, and the second entry never raises |
| DistributionState.RemoveAllPresent | ryu/app/distribution/prepare3_distribution_info.py:86-87 | removing distinct online switches one by one removes exactly them, without KeyError |
| DistributionState.EnterThenLeave | ryu/app/distribution/prepare3_distribution_info.py:72-88 | an offline controller whose distinct switches are offline enters and leaves without raising, and the online sets return to what they were |
| DistributionState.HandOutLoop | ryu/app/distribution/prepare3_distribution_info.py:114-118 | the loop hands out the trees of the sources related to cid and takes cid out of every related set |
| DistributionState.HandOutOnce | ryu/app/distribution/prepare3_distribution_info.py:111-119 | an immediate repeat for the same controller hands out no trees |
| DistributionState.HandOutOthers | ryu/app/distribution/prepare3_distribution_info.py:111-119 | a hand-out to one controller does not change what another controller gets |
| DistributionState.HandOutAfterReset | ryu/app/distribution/prepare3_distribution_info.py:111-119 | right after a route reset, a controller gets a source's tree exactly when one of that tree's nodes belongs to it |
| DistributionState.DistributionInfo.constructor | ryu/app/distribution/prepare3_distribution_info.py:29-68 | nothing is online, the switch list is the one the switch loop builds from the reported switches, the link list the one the link loop builds from the reported links, and the related sets are those of the first routes |
| DistributionState.DistributionInfo.ControllerEnter | ryu/app/distribution/prepare3_distribution_info.py:72-79 | cid 0 and an online cid change nothing; otherwise the cid and all its switches come online, and an unknown cid raises after being added |
| DistributionState.DistributionInfo.ControllerLeave | ryu/app/distribution/prepare3_distribution_info.py:81-88 | cid 0 and an offline cid change nothing; otherwise the cid and its switches go offline, raising at the first switch that was not online |
| DistributionState.DistributionInfo.Switches | ryu/app/distribution/prepare3_distribution_info.py:90-95 | the switches whose dpid is online, in order |
| DistributionState.DistributionInfo.Links | ryu/app/distribution/prepare3_distribution_info.py:97-102 | the links whose two ends are online, in order |
| DistributionState.DistributionInfo.AvailableNodes | ryu/app/distribution/prepare3_distribution_info.py:137-144 | fails exactly when a dpid is not hex; otherwise the nodes that are not sources, in order, and all nodes |
| DistributionState.DistributionInfo.ResetRoute | ryu/app/distribution/prepare3_distribution_info.py:180-186 | the new trees are stored; it raises exactly when some tree node has no controller, and otherwise each source's related set holds its tree's controllers |
| DistributionState.DistributionInfo.GroupAdd | ryu/app/distribution/prepare3_distribution_info.py:146-155 | an existing source changes nothing; otherwise the next group number and its IP go to src, dst is stored and the routes are reset |
| DistributionState.DistributionInfo.GroupMod | ryu/app/distribution/prepare3_distribution_info.py:157-178 | an unknown source or an unchanged receiver set changes nothing; otherwise dst replaces the receivers and the routes are reset |
| DistributionState.DistributionInfo.LatestTreesForCInstall | ryu/app/distribution/prepare3_distribution_info.py:111-119 | None for cid 0; otherwise the trees related to cid, and cid is taken out of every related set |
| HexStrings.HexChar | ryu/app/distribution/prepare2_custom_mn_topo.py:26-28 | each digit value gets a hexadecimal character that reads back as that value, a capital letter when upper-case is asked for |
| HexStrings.NatToHex | ryu/app/distribution/prepare2_custom_mn_topo.py:26-28 | the digits of `hex(n)` without the prefix: at least one hexadecimal digit and no leading zero |
| HexStrings.NatToHexRoundTrip | ryu/app/distribution/prepare2_custom_mn_topo.py:26-28 | the digits read back as the number |
| HexStrings.NatToHexLength | ryu/app/distribution/prepare2_custom_mn_topo.py:26-29 | a number below 16^k has at most k digits |
| HexStrings.ZFill | ryu/app/distribution/prepare2_custom_mn_topo.py:29 | `zfill(width)` leaves a string at least as long as width alone and pads a shorter one to exactly width |
| HexStrings.HexValueLeadingZeros | ryu/app/distribution/prepare2_custom_mn_topo.py:29 | zero padding does not change the value |
| HexStrings.ParseFormatted | ryu/app/distribution/prepare3_distribution_info.py:53 | any integer rendered as signed hex and zero-filled to any width reads back with `int(…, 16)` as the integer |
| HexStrings.DpidToStrRoundTrip | ryu/app/distribution/prepare3_distribution_info.py:53 | `int(dpid_to_str(n), 16)` gives n back, for negative n too |
| HexStrings.Hex16UpperRoundTrip | ryu/app/distribution/prepare2_custom_mn_topo.py:24-30 | for a node number below 16^16, `int_to_16bit_hex_string` has exactly 16 digits, holds no lower-case letter, and reads back as the number |
| HexStrings.Hex16UpperInjective | ryu/app/distribution/prepare2_custom_mn_topo.py:24-30 | two node numbers below 16^16 with the same dpid string are equal, so no two switches share a dpid |
| HexStrings.Lower | ryu/app/distribution/prepare3_distribution_info.py:40 | `str.lower()` on ASCII: same length, each capital letter mapped to its small letter and every other character kept |
| RandomGraph.SplitOn | ryu/app/distribution/random_graph.py:86 | `str.split(' ')` always yields at least one piece |
| RandomGraph.IndexOfChar | ryu/app/distribution/random_graph.py:86 | the position of the first occurrence of the separator |
| RandomGraph.JoinSplit | ryu/app/distribution/random_graph.py:86 | joining the pieces with the separator gives the line back, so splitting loses nothing |
| RandomGraph.AfterHeader | ryu/app/distribution/random_graph.py:81-85 | the lines after the first "EDGES" line are a part of the file |
| RandomGraph.ParsedLines | ryu/app/distribution/random_graph.py:86-87 | each body line is read as the edge named by its first two fields, or as the ValueError/IndexError |
| RandomGraph.AddEdgesStep | ryu/app/distribution/random_graph.py:85-87 | one body line adds its undirected edge and the rest follow, and an unreadable line stops the parse |
| RandomGraph.GtItmExample | ryu/app/distribution/random_graph.py:78-88 | the line loop with its `flag` builds the graph of the edges after the first "EDGES" line, or fails at an unreadable one |
| RandomGraph.HeaderIgnored | ryu/app/distribution/random_graph.py:81-85 | lines before the first "EDGES" header, and the header itself, add nothing to the graph |
| RandomGraph.AddEdgesDefined | ryu/app/distribution/random_graph.py:85-87 | the parse succeeds exactly when every body line names an edge |
| RandomGraph.AddParsedGrows | ryu/app/distribution/random_graph.py:87 | adding edges never removes a node or a neighbour |
| RandomGraph.AddEdgesHas | ryu/app/distribution/random_graph.py:86-87 | every line of a successful parse names an edge present in both directions |
| RandomGraph.NoHeaderNoEdges | ryu/app/distribution/random_graph.py:81-88 | a file without an "EDGES" line gives the empty graph |
| RandomGraph.EdgeLineParses | ryu/app/distribution/random_graph.py:86-87 | a line `"<a> <b> …"` of two decimal numbers names the edge (a, b) |
| RandomGraph.TsFileNameInjective | ryu/app/distribution/random_graph.py:74-75 | different sizes read different files `graphs/ts<n>-0.alt` |
| RandomGraph.GtItmTs | ryu/app/distribution/random_graph.py:74-75 | `gt_itm_ts(n)` parses the lines of the file named for n |
| RandomGraph.GtItmR | ryu/app/distribution/random_graph.py:91-103 | a random graph is asked for exactly at the sizes 100, 175, 250, 325 and 400, with that size, weight 1 and an edge probability strictly between 0 and 1; any other size gives None |
| ProxyFraming.MsgLen | ryu/app/distribution/proxy.py:30-33 | the header's length field, raised to the header size when smaller: at least both, and equal to one of them |
| ProxyFraming.SplitConserves | ryu/app/distribution/proxy.py:29-46 | the messages cut off followed by what stays buffered are exactly the buffer: no byte is lost or invented |
| ProxyFraming.SplitFrames | ryu/app/distribution/proxy.py:29-46 | every message cut off is as long as its header's (raised) length; exactly the accepted ones are forwarded, in order; what stays is shorter than a header or an incomplete message whose missing byte count becomes the next read size; the read size stays positive |
| ProxyFraming.ConcatAppend | ryu/app/distribution/proxy.py:41-44 | the bytes of two runs of messages are the bytes of each run, one after the other |
| ProxyFraming.AcceptedAppend | ryu/app/distribution/proxy.py:38-41 | the accepted messages of two runs are those of each run, in order |
| ProxyFraming.CutMessages | ryu/app/distribution/proxy.py:29-46 | the inner loop cuts, forwards and leaves exactly what the framing function says |
| ProxyFraming.SplitKeeps | ryu/app/distribution/proxy.py:27-46 | buffering a read and cutting again keeps every byte received so far accounted for, and the forwarded messages are the earlier ones followed by the new ones |
| ProxyFraming.Relay.constructor | ryu/app/distribution/proxy.py:13-14 | an empty buffer, the header size as the read size, and nothing forwarded |
| ProxyFraming.Relay.ReadLen | ryu/app/distribution/proxy.py:17-19 | the read size is the header size, or the missing part of a buffered message when that is larger |
| ProxyFraming.Relay.Receive | ryu/app/distribution/proxy.py:24-46 | an empty read ends the relay and changes nothing else; otherwise the bytes are buffered, every complete message is cut off and forwarded when accepted, and the bytes cut plus those buffered stay all the bytes read |
| WebUi.AscendingByComparator | ryu/app/flow_manager/web/js/multicastgroupcontroll.js:42-44 | a list is ascending exactly when the comparator `a - b` puts no later element before an earlier one |
| WebUi.Insert | ryu/app/flow_manager/web/js/multicastgroupcontroll.js:98-103 | inserting into an ascending list keeps it ascending and one longer |
| WebUi.InsertPermutes | ryu/app/flow_manager/web/js/multicastgroupcontroll.js:98-103 | inserting adds exactly the new element |
| WebUi.SortNumeric | ryu/app/flow_manager/web/js/multicastgroupcontroll.js:98-103 | `sort((a, b) => a - b)` gives an ascending list of the same length |
| WebUi.SortNumericPermutes | ryu/app/flow_manager/web/js/multicastgrouptables.js:86-91 | the sorted list holds exactly the same nodes, with the same multiplicities |
| WebUi.AscendingUnique | ryu/app/flow_manager/web/js/multicastgroupcontroll.js:42-44 | two ascending lists of the same elements are equal, so the sorted order does not depend on the sort algorithm |
| WebUi.SortNumericCanonical | ryu/app/flow_manager/web/js/multicastgrouptables.js:33-35 | lists with the same nodes sort to the same list, and sorting again changes nothing |
| WebUi.ParseDigits | ryu/app/flow_manager/web/js/multicastgroupcontroll.js:161 | `parseInt` reads nothing (NaN) exactly when no digit follows the sign |
| WebUi.ParseJsIntOfPrefix | ryu/app/flow_manager/web/js/multicastgroupcontroll.js:167 | `parseInt` of a decimal numeral followed by a non-digit gives the number |
| WebUi.ParseJsIntOfString | ryu/app/flow_manager/web/js/multicastgroupcontroll.js:201 | `parseInt` reads back the decimal rendering of any integer, negative ones too |
| WebUi.IndexKeys | ryu/app/flow_manager/web/js/multicastgroupcontroll.js:78-82 | the keys enumerated first are array indices |
| WebUi.OtherKeys | ryu/app/flow_manager/web/js/multicastgroupcontroll.js:78-82 | the remaining keys are not array indices |
| WebUi.KeysPartition | ryu/app/flow_manager/web/js/multicastgroupcontroll.js:78-82 | together the two groups are exactly the object's keys |
| WebUi.SortKeys | ryu/app/flow_manager/web/js/multicastgroupcontroll.js:78-82 | the index keys are visited in ascending numeric order |
| WebUi.SortKeysPermutes | ryu/app/flow_manager/web/js/multicastgroupcontroll.js:78-82 | ordering the index keys keeps exactly the same keys |
| WebUi.SourceList | ryu/app/flow_manager/web/js/multicastgroupcontroll.js:77-82 | the `for … in` loop with `hasOwnProperty` lists the object's keys in JavaScript's property order |
| WebUi.OwnKeys | ryu/app/flow_manager/web/js/multicastgrouptables.js:65-70 | the loop keeps exactly the visited keys that are own properties, in visiting order |
| WebUi.OwnOnlyAll | ryu/app/flow_manager/web/js/multicastgrouptables.js:66-69 | when every visited key is an own property, `hasOwnProperty` drops none |
| WebUi.EnumerationMultiset | ryu/app/flow_manager/web/js/multicastgroupcontroll.js:78-82 | the visited keys are exactly the object's keys |
| WebUi.EnumerationOwn | ryu/app/flow_manager/web/js/multicastgroupcontroll.js:78-82 | every visited key has a value in the object |
| WebUi.EnumerationDistinct | ryu/app/flow_manager/web/js/multicastgroupcontroll.js:78-82 | every key is visited exactly once |
| WebUi.EnumerationOrderShape | ryu/app/flow_manager/web/js/multicastgroupcontroll.js:78-82 | the array-index keys come first in ascending numeric order, then the other keys in creation order |
| WebUi.NodeIdIsArrayIndex | ryu/app/flow_manager/web/js/multicastgroupcontroll.js:78-82 | a node number up to 2^32 - 2 rendered as a key is an array index worth that number |
| WebUi.NodeIdEnumeration | ryu/app/flow_manager/web/js/multicastgroupcontroll.js:78-82 | when every key is a node number, the enumeration is the keys in ascending numeric order |
| WebUi.NodeIdSourcesAscending | ryu/app/flow_manager/web/js/multicastgrouptables.js:65-70 | for the source keys of `/currentgroups`, `src_list` is strictly ascending by node number, whatever order the server wrote them in |
| WebUi.RenderCheckboxes | ryu/app/flow_manager/web/js/multicastgroupcontroll.js:127-143 | one box per available node, in order, with the node's value, checked exactly when the node is in the group |
| WebUi.RenderRadios | ryu/app/flow_manager/web/js/multicastgroupcontroll.js:112-125 | one unchecked radio button per available source, in order, with the node's value |
| WebUi.BuildForms | ryu/app/flow_manager/web/js/multicastgroupcontroll.js:45-62 | one form per source, in source order, whose boxes render the sorted nodes and are checked by the source's group |
| WebUi.FormIdsDistinct | ryu/app/flow_manager/web/js/multicastgroupcontroll.js:46-47 | different sources get different form and container ids |
| WebUi.SubmitAdd | ryu/app/flow_manager/web/js/multicastgroupcontroll.js:154-190 | `/groupadd` is posted exactly when one source and at least one receiver are checked, with that source and those receivers; otherwise the snackbar says INVALID ARGUMENTS! |
| WebUi.SubmitMod | ryu/app/flow_manager/web/js/multicastgroupcontroll.js:193-224 | `/groupmod` is posted exactly when some box of the source's container is checked, with `parseInt(src)` and the checked values; otherwise INVALID ARGUMENTS! |
| WebUi.CheckedAppend | ryu/app/flow_manager/web/js/multicastgroupcontroll.js:198-202 | the checked inputs of two parts of the page are those of each part, in document order |
| WebUi.Members | ryu/app/flow_manager/web/js/multicastgroupcontroll.js:139 | exactly the available nodes that are in the group |
| WebUi.CheckedOfRendered | ryu/app/flow_manager/web/js/multicastgroupcontroll.js:127-143 | reading back a freshly rendered container gives exactly the available nodes in the group, in order |
| WebUi.ControlForms | ryu/app/flow_manager/web/js/multicastgroupcontroll.js:45-62 | the control page's per-source forms, one per source in order |
| WebUi.FormInputsSelect | ryu/app/flow_manager/web/js/multicastgroupcontroll.js:198 | selecting by a container name reads only the form whose boxes carry that name |
| WebUi.ContainerNamesDiffer | ryu/app/flow_manager/web/js/multicastgroupcontroll.js:104-105 | no per-source container shares a name with the add form's containers |
| WebUi.FreshModSubmit | ryu/app/flow_manager/web/js/multicastgroupcontroll.js:193-224 | submitting a source's form on a freshly rendered page posts exactly its current group's receivers among the available nodes, or INVALID ARGUMENTS! when none is available |
| WebUi.AddFormUnchecked | ryu/app/flow_manager/web/js/multicastgroupcontroll.js:93-110 | the freshly rendered add form has nothing checked |
| WebUi.FreshPageNoSource | ryu/app/flow_manager/web/js/multicastgroupcontroll.js:158-162 | on a freshly rendered page no source radio button is checked |
| WebUi.FreshAddSubmit | ryu/app/flow_manager/web/js/multicastgroupcontroll.js:154-190 | submitting the add form untouched always gives INVALID ARGUMENTS! and posts nothing |

## Left out

- PllWeighted.WeightedPll: every label entry is proved to bound the weight of a real walk. The exact two-hop cover, where some common hub gives the shortest distance, is not proved.
- IncPll.IncPllW: sound labels are proved to stay sound after the edge is added. That the repaired labels again cover all shortest distances is not proved.
- DecPll.DecPllW: the untouched entries are kept and every restored entry is proved to be a walk weight. Exactness after the removal is not proved.
- DecPll.RestoreFrom: the test `dist[v] < query(L, a, v)` is stated against the labels the search started from, and only when every vertex is its own hub at distance at most 0, as pruned_dijkstra leaves it. Without that entry a rewrite can raise an entry, and the test is then not stated. The same holds for DecPll.GreedyRestore. `remove_affected_labels` deletes a vertex's own entry only when the vertex is in both affected sets.
- IncPll.ResumePbfs: the test `d < prefixal_query(l0, root, u, root)` is stated over the hubs below root, which the search cannot change. Over hub root itself the search compares with entries it has just written, and that comparison is not stated.
- FullPll.FullPLL.Query: the answer is the label query, an upper bound on the distance when the labels are sound. That it equals the distance would need the exact two-hop cover, which is not proved (see PllWeighted.WeightedPll above).
- Floyd.GeneralFloyd2: every finite entry is proved to be a walk weight, at most 0 on the diagonal and at most the edge weight on an edge. That the entries are shortest distances is not proved.
- IncPll.ResumePbfs: `resume_pbfs` has no visited set and stops only because weights are non-negative. The model bounds each search by a `fuel` number of pops, and a search cut short by the bound is not modelled. The same bound passes through IncPll.ResumeIfHub, IncPll.IncPllW, FullPll.FullPLL.AddEdge and FullPll.FullPLL.ChangeEdgeWeight.
- HeatDegree.ConvertRoutingTree: the recursion of `convert_routing_tree_to_digraph` follows an arbitrary undirected tree. It is bounded by `fuel`, and the root is only guaranteed when the fuel is positive.
- DistributionState.DistributionInfo.constructor: it requires every port name and every link name to parse and every tree node to have a controller. `__init__` raises in those cases, and a server that failed to start is not modelled. The lists of switches and links fetched over HTTP are parameters.
- DistributionState.DistributionInfo.ResetRoute: when a lookup raises, the related sets are not stated beyond the raise. In the source they stay partly filled.
- DistributionState.DistributionInfo.LatestTreesForCInstall: the `multicast_info` that the source returns beside the trees is the `multicastInfo` field and is not part of the result.
- RandomGraph.GtItmR: the contract states the five sizes, weight 1 and a probability strictly between 0 and 1. It does not state the probability used for each size.
- `dec_pll_weighted.alternative_affected` is not modelled: `dec_pll_w` does not call it.
- `PriorityQueue`'s heap layout is not modelled. The container is a sequence, and `pop` takes the least entry in the order `heapq` compares tuples.
- Parts of `heat_degree_matrix.py` are not modelled because they compute floating-point values:
  - `build_relevance`, `update_heat_degree_ij`, `build_heat_matrix` and the heat formulas;
  - `add_recv`, `change_delay`, `heat_graph` and `__routing__`, which run on those floats or on networkx's `steiner_tree`;
  - `statistic` and `init_time`, which keep timing records.
- The choice between FullPLL and Floyd distances in `query`, `_pll_query` and `_distance_query` is not modelled: a query is a parameter.
- Kmb.BuildG1: the step-1 distances come from networkx's `single_source_dijkstra` and are the parameter `dist`. A terminal that cannot be reached, a KeyError in `KMB`, and the table `dis` of paths are not modelled. Steps 2 to 4 of `KMB` (minimum spanning tree, recovery of the paths) are networkx calls and are left out.
- Randomness in `prepare1_graph_info.py` is a parameter:
  - the draws in `random_s_from_graph`, `random_s2r_from_graph`, `random.uniform` and `add_attr_with_random_value`;
  - the controller draw;
  - the receiver chosen by `add_random_r`/`remove_random_r`;
  - the bandwidth draws.
- `inc_link_delay` and `disable_link` are not modelled: they work on floats. JSON and pickle output is not modelled either.
- The `stp`/`failMode` switch options of the Mininet builds are not modelled. TCLink shaping is kept as the edge's bandwidth and delay.
- MobilityController.MobilityApp.TopoTrigger: the routing trees that `topo_trigger` builds through the heat-degree model and networkx's `steiner_tree` are not modelled. As written, `clear_entries` raises before they are used (see Findings). The model of the intended path, MobilityController.MobilityApp.TopoTriggerIntended, clears the group entries and installs the trees without modelling those switch messages; `install_routing_tree` is modelled on its own.
- MobilityController.ReachableReceivers: `nx.has_path` is the parameter `hasPath`, a total function. A source or receiver that is not a node of the graph, where networkx raises NodeNotFound, is not modelled.
- HexStrings.ParseHexInt: Python's `int(s, 16)` also accepts a `0x` or `0X` prefix after the sign and single underscores between digits. The model rejects both. The strings it reads are dpids that ryu writes as plain hexadecimal digits.
- Common.ParsePyInt: Python's `int(s)` also accepts single underscores between digits. The model rejects them. The strings it reads are Mininet names and numbers written by `str()`, which never contain one.
- The receiver's floating-point `dif` in the timestamp record is not modelled. The clock readings are parameters.
- Processes, sockets, threads, DDS publishing, cherrypy and HTTP handlers, and file I/O are not modelled. Each such call becomes a parameter or a returned value. The OpenFlow parser's `unpack` is the predicate `accepts`.
- The web pages' DOM, jQuery and d3 calls, and the HTML strings, are not modelled. A page is the sequence of its inputs. Also left out:
  - `parseInt`'s `0x` prefix and Unicode whitespace;
  - NaN turning into `null` in JSON;
  - the browser's one-radio-checked rule;
  - inherited enumerable properties.
- `random_graph.random_graph`'s random draw, the file reading behind `gt_itm_ts` and networkx's node order are not modelled; the lines read are a parameter.
- The random helpers of `route/util.py` are not modelled.

## Findings

| source | as written | input that shows it | evidently intended | confidence | as-written member | corrected member |
|---|---|---|---|---|---|---|
| ryu/app/distribution/route/dec_pll_weighted.py:108-113 | `order_restore` marks the root before its first pop, so the pop of the root is skipped and each search ends at once | any labels and affected sets: the labels come back unchanged | the root is marked when popped and each search restores the cross entries (`dec_pll_w` calls `greedy_restore`, so no caller depends on it) | not executed | DecPll.OrderRestore | DecPll.OrderRestoreIntended |
| ryu/app/distribution/route/heat_degree_matrix.py:293-296 | on the directed tree, `neighbors` gives successors only; a receiver that is a leaf has degree 1 but no successor, so `next(...)` raises StopIteration | tree 1 -> 2, source 1, removing receiver 2 | follow the single adjacent node in either direction and remove the chain of non-terminals | not executed | HeatDegree.LeafReceiverRaises, HeatDegree.LeafReceiverExample | HeatDegree.PruneChainBothWaysCompletes, HeatDegree.HeatDegreeModel.RemoveRecvFromRoutingTrees |
| ryu/app/distribution/route/relavence_matrix.py:63-69 | the pruning walk removes the node it stands on before checking it, so it also removes the terminal or branching node where the chain ends | path a-b-c with terminals b and c: the walk from leaf a removes a, b and c | stop at a terminal or at a node of degree other than 1, keeping it | not executed | Kmb.PruneRemovesTerminalsExample, Kmb.PathAsWritten | Kmb.PruneIntendedKeepsTerminals, Kmb.PruneLeaves |
| ryu/app/mobility/send.cpp:54-61 | each of the three low MAC octets is read from a 2-bit slice, so only the first six of the 23 low bits reach the MAC | 224.0.1.1 and 224.0.1.2 get the same MAC | section 6.4 of RFC 1112: the low 23 bits of the group address in the low 23 bits of 01-00-5E-00-00-00 | not executed | Timestamps.GroupMacsCollide, Timestamps.MacAsWrittenIgnoresLowOctets | Timestamps.Rfc1112MacInjective, Timestamps.Rfc1112GroupMacsDistinct |
| ryu/app/mobility/controller.py:181-182 | the early `return` for an ARP seen again on another port skips `self.lock.release()` | one ARP key seen first on port 1, then on port 2: every later ARP blocks | release the lock on the early return too | not executed | MobilityController.EchoLeavesLockHeld, MobilityController.ArpUnderLockAsWritten | MobilityController.ArpUnderLockNeverBlocks, MobilityController.MobilityApp.HandleArp |
| ryu/app/distribution/controller.py:320-322 | the host loop removes the host from the `ports` list, where it is not listed, so `remove` raises ValueError | a switch leaving with one host attached | remove the host from the `hosts` list | not executed | GlobalTopology.SwitchWithHostRaises, GlobalTopology.SwitchRemovedAsWritten | GlobalTopology.SwitchRemovedClears, GlobalTopology.GlobalTopo.OnSwitchMsg |
| ryu/app/mobility/controller.py:258-260 | `clear_entries` reads `info.node_to_group_no` and `info.group_no_list`, which MulticastInfo does not have, so it raises AttributeError while the lock is held | any topo_trigger call whose links parse: the lock stays held, the experiment never starts, and every later call blocks | iterate over the group numbers MulticastInfo keeps, then install the trees, start the experiment and release the lock | not executed | MobilityController.MobilityApp.TopoTrigger | MobilityController.MobilityApp.TopoTriggerIntended |
| ryu/app/mobility/controller.py:105 | parse_graph unpacks eight fields per link, but the experiment server's `links` serves six (ryu/app/mobility/prepare2_custom_mn_topo.py:67-80) | any non-empty link list the server returns: the unpacking raises ValueError | serve each link's bandwidth and delay as the seventh and eighth fields | not executed | MobilityController.ServedLinksRejected | MobilityController.ServedIntendedParses |
