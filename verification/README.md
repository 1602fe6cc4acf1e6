# Verified model of the re6stnet control plane

re6stnet builds a resilient IPv6 overlay: a registry allocates prefixes and signs certificates,
nodes open tunnels to each other, and babeld routes over them. This project models, in Dafny, the
algorithms and protocols of its control plane and of its simulators, and proves what they promise.
`dafny verify dfyconfig.toml` checks all of it.

Code that changes things step by step (the `cert` table, the buffers, the arrays of the search, the
vectors of the contraction, the dictionaries of the tunnel manager) is modelled by classes, arrays
and loops, each method being proved against functions and predicates on values; the lemmas about
those values are the properties. Protocols are runs of events, in which messages may be lost,
delayed, repeated and reordered.

| files | what they model |
|---|---|
| `Wrappers`, `Bits`, `Numbers`, `FiniteSets`, `Bytes` | optional values, binary prefixes and their text order, powers of two, finite sets, byte strings |
| `PrefixTable`, `PrefixAllocation`, `PrefixMerging`, `PrefixAllocator`, `PrefixRuns`, `PrefixWitnesses`, `KraftSum` | the prefix allocator of the registry, a buddy allocator over the rows of a table |
| `ShortestPaths`, `RouteCounts`, `Routes` | the search for shortest latencies with lazy deletion, and the count of routes |
| `OverlayLinks`, `Overlay` | the links of the simulated overlay, their budget, and how nodes drop and draw them |
| `Cuts`, `Contraction`, `Renumbering`, `MinCut` | the randomised minimum cut, by contraction and renumbering in place |
| `Codec`, `BabelBuffer`, `BabelStream`, `BabelConnection` | the formats of the control socket of babeld, its buffer, its framing, and a whole connection |
| `FullPeriod`, `PortGenerator` | the generator of external ports: the power-of-two case of the Hull-Dobell theorem |
| `RegistryRatchet`, `RegistryCalls` | authenticated calls to the registry |
| `PeerSession`, `PeerForgetting` | UDP sessions between peers, and peers that are forgotten |
| `IntegerCode`, `VersionGossip`, `KeyRotation` | the order-preserving integer code, the versions that it orders, and the keys of babeld |
| `PeerIndex` | the sorted list of peers and its lookup by bisection |
| `TunnelPool`, `TunnelKilling`, `TunnelRestoring`, `TunnelManager` | the tunnels of a node: budget, interfaces, how they are closed, and what babeld has then |

Assumptions:

- Binary prefixes are strings of `false` (0) and `true` (1); a full address is 128 bits less the
  network prefix.
- SHA-1 and HMAC (section 2 of RFC 2104) are free constructors: equal values are built alike.
  Signatures cannot be forged, and what is encrypted is read by its addressee only.
- The secrets of registry handshakes are all distinct, and a new secret of a peer is greater than
  all earlier ones, as the documentation of `Peer` says (re6st/x509.py:191-192).
- Keys of the rotation that are drawn differ from those of the table, where two steps are compared.
- babeld obeys in order, a dump shows the multipliers it has when it answers, and it changes none by
  itself; a dump is asked for once the one before was treated. Distinct tunnels have distinct links,
  which the code only logs when it is not so (re6st/routing.py:270-278).
- Packets on the control socket are well formed and of a known type.
- The table of latencies is symmetric, as its constructor makes it
  (simulation/realistic_dataset/latency.cpp:26-27); the graph to cut is connected.
- The random choices of the program are arbitrary in the model; those of the tunnel manager, with
  the answers of the cache, the registry and the network, are the parameter `World`.
- What a node knows from babeld (`Dump`) never lists the node itself as a distant peer.

What the proofs found the code not to do. Each item names the lemma or contract that says exactly
when the code does it, and then the concrete case in which it does not:

- `newPrefix` can miss free space on a table that is not coalesced, as a revocation leaves it until
  the next timeout (`PrefixRuns.RunMissesNothingIff`; `PrefixWitnesses.RevocationLeavesGap`).
- `mergePrefixes` looks for lengths below 128, so two free rows of 128 bits, which exist only
  without a network prefix, stay apart (`PrefixMerging.MergedIsCoalesced`;
  `PrefixWitnesses.AddressesStayApart`).
- Lookup by bisection can miss a peer when prefixes are nested (`PeerIndex.FoundIff`;
  `PeerIndex.NestedPrefixMissed`).
- The retry of a handshake with the protocol put back in front does not rebuild a message whose
  protocol number is truncated (`IntegerCode.RepackRebuilds`; `IntegerCode.TruncatedNotRebuilt`).
- The key of a handshake with the registry is lost when somebody else says hello for the client
  after it, once the registry has a session (`RegistryRatchet.FreshKeyAccepted`;
  `RegistryRatchet.FreshKeyLost`).
- Strings with a zero byte do not survive the codec (`Codec.RoundTrip`; `Codec.ZeroByteLost`).
- An agreement to kill a tunnel raises KeyError when this node has not opened it
  (`TunnelManager.Manager.KillMessage`; `TunnelManager.AgreedWithoutTunnel`).
- A tunnel killer can outlive six timeouts when it is aborted late (`TunnelKilling.GoneInTimeIff`;
  `TunnelKilling.LateAbort`).
- When the killing of a tunnel fails and starts again at the same dump, and fails again, the neighbour
  is left with the multiplier of a lock, which the second killer has recorded
  (`TunnelRestoring.PutBackIff`, `TunnelManager.DumpPutsBack`; `TunnelRestoring.LockedTwice`,
  `TunnelManager.ChosenAgain`).
- The end of a tunnel whose interface is missing from the latest dump raises KeyError
  (`TunnelManager.Manager.ClientDisconnect`; `TunnelManager.InterfaceGone`).
- A peer that is forgotten and made again accepts old datagrams of a session that the other end
  opened, after its old hello (`PeerForgetting.AcceptedAgainIff`; `PeerForgetting.AcceptedTwice`).
- The first step of the key rotation stores an empty key, which `json.dumps` rejects: nodes keep no
  key until the second step, and then do not understand each other until all have it
  (`KeyRotation.HeldAgreeIff`; `KeyRotation.FirstKeyNotServed`).
- A node that restarts before it has fetched the configuration it had heard of goes back to the
  version of its cache (`VersionGossip.DecreasesIff`; `VersionGossip.VersionForgotten`).

A remark: `GetRouteResult` lists one link nRefresh times and removes it alone
(`Overlay.Graph.RemoveAll`); the only caller passes 1 (simulation/realistic_dataset/main.cpp:42).

## Model

| member | source | states |
|---|---|---|
| `PrefixAllocator.Registry.constructor` | re6st/registry.py:107-113 | the `cert` table starts as one free row, the empty prefix, which is a partition of the address space |
| `PrefixAllocator.Registry.SelectLongestFree` | re6st/registry.py:492-498 | the row found is a free one inside the community, no longer than wanted, and no such row is longer; none is found only when there is none |
| `PrefixAllocator.Registry.SelectContaining` | re6st/registry.py:500-505 | a row that begins the community, when there is one |
| `PrefixAllocator.Registry.FindRow` | re6st/registry.py:491-509 | the search starts from a best-fitting free row; when it fails no wanted block lies in a free row |
| `PrefixAllocator.Registry.SplitDown` | re6st/registry.py:510-517 | the split ends at the leftmost wanted block of the row; the rows stay a partition, the taken rows are the same, and no block of the wanted length becomes free or taken |
| `PrefixAllocator.Registry.NewPrefix` | re6st/registry.py:483-520 | succeeds exactly when some block of the wanted length in the community, the all-zero address aside, lies in a free row; the block is the leftmost one of a best-fitting row of the table of its round, which is the table at the start, or the one that a first round leaves when it ends at the all-zero address and reserves it; that row is split down to the block and no other row changes; a refusal changes nothing but by such a first round; the table is coalesced but for the pair of the new block if it was coalesced |
| `PrefixAllocation.AllocationComplete` | re6st/registry.py:491-509 | on a coalesced table a wanted block lies in one free row exactly when some wanted block is entirely free |
| `PrefixAllocation.MissesNothingIff` | re6st/registry.py:491-509 | the allocator grants every request for which there is room exactly when no two free rows are siblings, the two halves of the whole space aside |
| `PrefixAllocation.ZeroTest` | re6st/registry.py:518 | the test on the length and on the digits after the community recognises exactly the all-zero address |
| `PrefixAllocation.SplitGoesOn` | re6st/registry.py:511-517 | one turn of the splitting loop keeps what the split has achieved |
| `PrefixAllocation.SearchFailed` | re6st/registry.py:499-509 | when the second query finds no free row, no wanted block can be allocated |
| `PrefixAllocation.ReserveZero` | re6st/registry.py:518-520 | reserving the all-zero address keeps the partition, the coalescing and the room for every other block |
| `PrefixAllocation.SecondRoundElsewhere` | re6st/registry.py:490-520 | after one reservation the split never ends at the all-zero address again |
| `PrefixAllocation.SearchFound` | re6st/registry.py:490-519 | a round that returns gives the whole effect of the allocation with respect to the table at the start |
| `PrefixAllocation.SearchOver` | re6st/registry.py:499-509 | a round that fails gives it too |
| `PrefixAllocation.AllocationKeepsRows` | re6st/registry.py:490-520 | every row that contains neither the block granted nor the all-zero address is still there, and unchanged |
| `PrefixTable.BlockFreeMeansAddressesFree` | re6st/registry.py:492-509 | a block is free as the queries see it exactly when each of its addresses lies below a free row |
| `PrefixTable.FreeBlockInOneRow` | re6st/registry.py:492-498 | in a coalesced partition an entirely free block lies in one free row |
| `PrefixTable.SiblingsInTwoRows` | re6st/registry.py:492-498 | the block of two free siblings is entirely free and in no single row |
| `PrefixTable.UniqueRow` | re6st/registry.py:501-505 | there is exactly one row whose prefix begins a given address |
| `PrefixTable.SplitPartition` | re6st/registry.py:511-517 | splitting a free row keeps a complete prefix-free code |
| `PrefixTable.SplitTaken` | re6st/registry.py:511-517 | splitting takes nothing from the rows that are reserved or issued |
| `PrefixTable.SplitInFreeRow` | re6st/registry.py:511-517 | splitting neither frees nor takes a block |
| `PrefixTable.SplitCoalesced` | re6st/registry.py:511-517 | splitting leaves no new pair of free siblings but the one of the half that is split next |
| `PrefixTable.JoinPartition` | re6st/registry.py:475-478 | joining two free siblings keeps a complete prefix-free code |
| `PrefixTable.JoinTaken` | re6st/registry.py:475-478 | joining takes nothing from the others |
| `PrefixTable.MoveUpIsJoin` | re6st/registry.py:476-478 | moving the first half up and deleting the second joins them |
| `KraftSum.SpaceConserved` | re6st/registry.py:460-520 | in every partition the sum of 2^(width - length) over the rows is 2^width |
| `KraftSum.BlockSpace` | re6st/registry.py:460-520 | the rows inside a block that no shorter row contains fill it exactly |
| `PrefixMerging.FreeRowsSorted` | re6st/registry.py:471-474 | the rows of one length are met in text order |
| `PrefixMerging.FreeRowsMembers` | re6st/registry.py:471-474 | they are exactly the free rows of that length |
| `PrefixMerging.MergeAllMerging` | re6st/registry.py:471-481 | what the pass over the first k rows keeps: the partition, the taken rows, and every remaining pair of free siblings has its second half ahead |
| `PrefixMerging.MergeStep` | re6st/registry.py:475-479 | when the previous row has the same parent the two rows are free siblings in order and joining them goes on with the pass |
| `PrefixMerging.SkipStep` | re6st/registry.py:480-481 | otherwise the row at hand is the second half of no free pair |
| `PrefixMerging.FirstHalfJustBefore` | re6st/registry.py:471-475 | in text order a first half is immediately before its second half |
| `PrefixMerging.LengthMerged` | re6st/registry.py:465-481 | after a length is treated no free siblings of that length or longer remain |
| `PrefixMerging.MergedIsCoalesced` | re6st/registry.py:464-468 | the result is coalesced exactly when no 128-bit siblings are free, which the initial bound 128 never treats; always when the network prefix is not empty |
| `PrefixAllocator.Registry.MaxFreeLength` | re6st/registry.py:466-468 | the greatest length of a free row below the bound, if any |
| `PrefixAllocator.Registry.MergeLength` | re6st/registry.py:471-481 | the inner loop does the whole pass over the free rows of one length |
| `PrefixAllocator.Registry.MergePrefixes` | re6st/registry.py:460-481 | one pass from long to short reaches the fixpoint: the taken rows are unchanged and no two free rows shorter than 128 bits are siblings; it ends |
| `PrefixAllocator.Registry.RequestCertificate` | re6st/registry.py:550-559 | a request is an allocation followed by the issue of the block, with the next serial |
| `PrefixAllocator.Registry.ReleaseExpired` | re6st/registry.py:279-297 | exactly the rows whose certificate has expired are freed, unless one is the registry's own |
| `PrefixAllocator.Registry.OnTimeout` | re6st/registry.py:264-299 | expired rows are freed and merged; nothing changes when the own certificate has expired |
| `PrefixAllocator.Registry.Revoke` | re6st/registry.py:698-704 | revocation by subnet frees exactly that row; it fails for a row without certificate, but frees a reserved one first |
| `PrefixAllocator.Registry.Renew` | re6st/registry.py:587-593 | renewal replaces the certificate of the row and nothing else |
| `PrefixRuns.StepSafe` | re6st/registry.py:264-299 | every request keeps the partition and every taken row that it does not name, and no block granted overlaps a taken one |
| `PrefixRuns.ExpiredIsFree` | re6st/registry.py:264-299 | after a cleaning no certificate is left that has expired, and the block of one that had is entirely free |
| `PrefixRuns.RunKeepsPartition` | re6st/registry.py:460-520 | in every run of requests, expiries, revocations and renewals the rows partition the address space and add up to 2^width |
| `PrefixRuns.CertificateKept` | re6st/registry.py:574-595 | in every run a certificate stays on its block until a request names it or it expires, and no block granted meanwhile overlaps it |
| `PrefixRuns.StepCoalesced` | re6st/registry.py:460-520 | a granted request leaves a coalesced table coalesced, and a timeout makes any table so |
| `PrefixRuns.SettledIsCoalesced` | re6st/registry.py:692-711 | in every run the table is coalesced whenever nothing was revoked since the last timeout |
| `PrefixRuns.GrantedIffRoom` | re6st/registry.py:483-520 | at every such moment of every run a request is granted exactly when some wanted block is entirely free |
| `PrefixRuns.RunMissesNothingIff` | re6st/registry.py:483-520 | at every moment of every run, settled or not, nothing is missed exactly when no two free rows are siblings, the halves of the whole space aside |
| `PrefixWitnesses.RevocationLeavesGap` | re6st/registry.py:692-711 | a concrete run with two grants and a revocation, after which half of the space is free and cannot be granted |
| `PrefixWitnesses.AddressesStayApart` | re6st/registry.py:464-468 | a concrete run without a network prefix, after whose cleaning two free rows of full addresses are still siblings |
| `Routes.GetRoutesFrom` | simulation/realistic_dataset/graph.cpp:68-116 | the distances are those of shortest paths, -1 without a path; `prevs` is a shortest-path tree; each node reached counts the nodes whose tree path goes through it |
| `Routes.Initialize` | simulation/realistic_dataset/graph.cpp:73-78 | all nodes unreached but the source, each counting itself |
| `Routes.Search` | simulation/realistic_dataset/graph.cpp:80-106 | the lazy search ends with every reached node in order exactly once, by increasing distance, and no link that shortens a distance |
| `Routes.PopTop` | simulation/realistic_dataset/graph.cpp:86-89 | the entry popped has the least distance |
| `Routes.SettleNode` | simulation/realistic_dataset/graph.cpp:91-105 | an entry that carries its node's distance settles a node that was not settled, and its links are relaxed |
| `Routes.RelaxOne` | simulation/realistic_dataset/graph.cpp:96-103 | one neighbour is relaxed |
| `Routes.CountRoutes` | simulation/realistic_dataset/graph.cpp:108-115 | after the reverse pass every reached node counts all those reached through it |
| `ShortestPaths.DropStale` | simulation/realistic_dataset/graph.cpp:91 | an entry whose distance is no longer that of its node can be ignored |
| `ShortestPaths.Settle` | simulation/realistic_dataset/graph.cpp:91-94 | the least entry, when not stale, belongs to a node not yet in order, whose distance is final |
| `ShortestPaths.Shorten` | simulation/realistic_dataset/graph.cpp:98-103 | a distance that is shortened is that of a node not in order; the queue then holds exactly one current entry for it |
| `ShortestPaths.KeepDistance` | simulation/realistic_dataset/graph.cpp:98 | a neighbour that is not improved is relaxed |
| `ShortestPaths.NoShorterPath` | simulation/realistic_dataset/graph.cpp:84-106 | no path is shorter than the distance found |
| `ShortestPaths.TreePath` | simulation/realistic_dataset/graph.cpp:101 | following `prevs` gives a path of exactly the distance found |
| `ShortestPaths.DistancesAreShortest` | simulation/realistic_dataset/graph.cpp:84-106 | so the distances are shortest latencies, and -1 exactly where there is no path |
| `RouteCounts.OneChild` | simulation/realistic_dataset/graph.cpp:108-115 | no node is reached through two children of one node |
| `RouteCounts.ChildLater` | simulation/realistic_dataset/graph.cpp:108-115 | a child is settled after its parent, so that it is treated before |
| `RouteCounts.TreatedIsComplete` | simulation/realistic_dataset/graph.cpp:109-115 | a node treated in reverse order has already counted all that are reached through it |
| `RouteCounts.TreatOne` | simulation/realistic_dataset/graph.cpp:113-114 | treating a node adds to its parent exactly the nodes reached through it, none of them counted before |
| `RouteCounts.CountEnds` | simulation/realistic_dataset/graph.cpp:108-115 | at the end each reached node has counted exactly those reached through it |
| `OverlayLinks.DegreeBounded` | simulation/realistic_dataset/graph.cpp:48 | within its budget a node has at most maxPeers neighbours |
| `OverlayLinks.AddKeepsBudget` | simulation/realistic_dataset/graph.cpp:45-52 | the conditions of the code on the other end keep the budgets of all nodes |
| `OverlayLinks.RemoveKeepsBudget` | simulation/realistic_dataset/graph.cpp:61-66 | removing a link that `from` generated keeps links symmetric, generated by one end, and within budget |
| `OverlayLinks.RemoveTwice` | simulation/realistic_dataset/graph.cpp:187-191 | removing the same link again changes nothing |
| `OverlayLinks.KillKeepsBudget` | simulation/realistic_dataset/graph.cpp:316-334 | forgetting the killed machines keeps the budgets |
| `Overlay.Graph.constructor` | simulation/realistic_dataset/graph.cpp:3-17 | the graph starts within budget and saturated: each node has k links of its own, or 50 draws in a row gave none that was acceptable, nor would be in the graph made |
| `Overlay.Graph.AddEdge` | simulation/realistic_dataset/graph.cpp:38-59 | a link is added to the first of 50 draws that is acceptable, and all those before were not; nothing changes when none is |
| `Overlay.Graph.SaturateNode` | simulation/realistic_dataset/graph.cpp:33-36 | the turn of a node: all new links are its own, each one a draw of the turn, and no draw of the turn would still be accepted; it ends with the draw that gave the k-th link, or with 50 draws that gave none |
| `OverlayLinks.NetworkValid` | simulation/realistic_dataset/graph.cpp:48-52 | nodes are linked only over positive latencies, as the search for shortest paths needs |
| `Overlay.Graph.RemoveEdge` | simulation/realistic_dataset/graph.cpp:61-66 | the link is removed at both ends |
| `Overlay.FewestRoutes` | simulation/realistic_dataset/graph.cpp:132-135 | the link with the fewest routes |
| `Overlay.Graph.GetRouteResult` | simulation/realistic_dataset/graph.cpp:118-142 | the link of the node, among those it generated, through which the fewest nodes are reached in a tree of shortest paths, listed nRefresh times |
| `Overlay.Graph.Choose` | simulation/realistic_dataset/graph.cpp:180-181 | exactly the chosen nodes that have generated links list one of them, and that one is used the least |
| `Overlay.Graph.RemoveAll` | simulation/realistic_dataset/graph.cpp:187-191 | however often it is listed, one link alone is removed |
| `Overlay.Graph.UpdateLowRoutes` | simulation/realistic_dataset/graph.cpp:180-201 | each node drops one link at most, the one that was used the least when the update began, and then has its turn; what the turns did is told one by one |
| `Overlay.Graph.UpdateLowRoutesArity` | simulation/realistic_dataset/graph.cpp:221-237 | the same, for exactly the nodes of one degree or with fewer neighbours than k; the others have no turn |
| `OverlayLinks.TurnReplaces` | simulation/realistic_dataset/graph.cpp:187-192 | for good, a node keeps its own links but the one dropped; that one is back, and any other link is new, only if drawn in its turn; the turn ends with k links, or with 50 draws refused |
| `Overlay.Graph.RebootNode` | simulation/realistic_dataset/graph.cpp:342-361 | the node is alone first; then it and exactly the nodes that had generated a link to it have their turns, each once |
| `OverlayLinks.RebornLinks` | simulation/realistic_dataset/graph.cpp:342-361 | after a reboot every link of the node, former or new, is a draw of the turn of one of its ends |
| `OverlayLinks.RebornSaturated` | simulation/realistic_dataset/graph.cpp:342-361 | after a reboot each of those nodes has k links of its own, or 50 draws in a row of that reboot were refused and would still be |
| `OverlayLinks.RebornKeepsOthers` | simulation/realistic_dataset/graph.cpp:342-361 | the other nodes lose at most their link to the node that reboots, and only those that lose it generate others |
| `Overlay.Graph.DropOwnLinks` | simulation/realistic_dataset/graph.cpp:344-346 | the node and those it had generated links to forget each other, and nothing else changes |
| `Overlay.Graph.DropOtherLinks` | simulation/realistic_dataset/graph.cpp:348-353 | the node is alone, nothing else changes, and its neighbours are listed once each |
| `Overlay.Graph.Reboot` | simulation/realistic_dataset/graph.cpp:336-363 | exactly the killed nodes reboot, one after the other; links between the others stay, and the budgets hold |
| `Overlay.Graph.KillMachines` | simulation/realistic_dataset/graph.cpp:316-334 | exactly the links to the machines that disappear are forgotten |
| `Overlay.Graph.GetArity` | simulation/realistic_dataset/graph.cpp:365-371 | the table of degrees counts the nodes of each degree, all within its bounds |
| `MinCut.MinCutGraph.constructor` | simulation/graph.cpp:211-225 | one edge for each neighbour with a greater number, with incidence sets that agree |
| `MinCut.MinCutGraph.MergeEdge` | simulation/graph.cpp:241-262 | every edge of the annulled vertex is redirected, or goes when it leads to the other end |
| `MinCut.MinCutGraph.MergeEdges` | simulation/graph.cpp:231-265 | after n merges the live edges are the original ones whose ends were merged into distinct vertices, n fewer vertices are live, and a live edge was always there to be drawn |
| `MinCut.MinCutGraph.RenameEnds` | simulation/graph.cpp:323-329 | the ends of the edges of one vertex follow its number |
| `MinCut.MinCutGraph.RenumNodes` | simulation/graph.cpp:316-333 | live vertices are renumbered in order, in place, and every edge and incidence set follows |
| `MinCut.MinCutGraph.RenumEdges` | simulation/graph.cpp:300-314 | live edges are kept, in order, and the incidence sets name them by their new numbers |
| `MinCut.MinCutGraph.Merge` | simulation/graph.cpp:227-269 | there is a map of the old vertices onto the new ones under which the edges are exactly the old ones with distinct images; the vertices merged into one are joined by edges among themselves, the graph is consistent as `Check` demands, and no new cut size appears |
| `MinCut.SearchCut` | simulation/graph.cpp:195-209 | a graph of more than two vertices is contracted twice, and the smallest of all the sizes reached in both contracted copies is returned; it is that of a real cut |
| `MinCut.GetMinCut` | simulation/graph.cpp:180-193 | the smallest of all the sizes reached in all rounds, which is that of a real cut; -1 without any round |
| `MinCut.SizesAreCuts` | simulation/graph.cpp:195-209 | each size that a search reaches is that of a real cut, and their number is that of the graphs of two vertices which it reaches |
| `MinCut.WholeIsMultigraph` | simulation/graph.cpp:271-298 | what `Check` demands makes the edges those of a multigraph without loops |
| `MinCut.RenumberedContraction` | simulation/graph.cpp:267-268 | merging and renumbering together is a contraction |
| `Cuts.CrossingContracted` | simulation/graph.cpp:227-269 | a cut of the contracted graph has the size of its preimage in the original one |
| `Cuts.ContractionKeepsCuts` | simulation/graph.cpp:227-269 | contraction keeps a graph connected and makes no new cut size |
| `Cuts.TwoVertices` | simulation/graph.cpp:199-200 | with two vertices the number of edges is the size of the cut |
| `Contraction.MergeStep` | simulation/graph.cpp:241-262 | one merge keeps the correspondence with the original graph |
| `Contraction.JoinedStep` | simulation/graph.cpp:234-265 | merging the ends of an edge keeps the vertices merged into one joined by edges among themselves |
| `Contraction.LiveEdgeExists` | simulation/graph.cpp:234-236 | while two vertices are live a connected graph has a live edge, so that the draw ends |
| `Renumbering.VerticesStep` | simulation/graph.cpp:318-331 | one turn of the renumbering of vertices |
| `Renumbering.OnlyItself` | simulation/graph.cpp:325-328 | an end that bears the old number is that vertex: no new number is mistaken for it |
| `Renumbering.EdgesStep` | simulation/graph.cpp:304-312 | one turn of the renumbering of edges |
| `Renumbering.LiveEdgesAreContraction` | simulation/graph.cpp:300-333 | the edges that remain are the contraction of the original ones |
| `Renumbering.NumberingOnto` | simulation/graph.cpp:316-333 | the new numbers are used up, and only merged vertices share one |
| `Codec.PrimsRoundTrip` | re6st/routing.py:13-18 | a packed record reads back |
| `Codec.DecodeEncoded` | re6st/routing.py:8-61 | at any offset of any bytes that hold the encoding of a canonical value, whatever follows, decoding gives the value and the offset of its end |
| `Codec.DecodedCanonical` | re6st/routing.py:17-61 | whatever the bytes, a decoded value is canonical: exact counts, integers in range, no zero inside a string |
| `Codec.RoundTrip` | re6st/routing.py:8-61 | of the values that encode, exactly the canonical ones come back between any two byte strings; a string with a zero byte, a short tuple or a byte field of another length do not |
| `Codec.KnownLayout` | re6st/routing.py:8-61 | the bytes of a packed record, in network order, and of an array with its count |
| `Codec.ZeroByteLost` | re6st/routing.py:52-61 | a concrete string with a zero byte comes back cut |
| `BabelBuffer.Buffer.constructor` | re6st/routing.py:66-68 | an empty buffer |
| `BabelBuffer.Buffer.Append` | re6st/routing.py:71-73 | what is added comes after what is pending |
| `BabelBuffer.Buffer.Seek` | re6st/routing.py:78-85 | the position moves on, the pending bytes are those after it |
| `BabelBuffer.Buffer.Ready` | re6st/routing.py:89-91 | ready exactly when the wanted bytes are pending |
| `BabelBuffer.Buffer.UnpackHeader` | re6st/routing.py:96-100 | a header is read and passed |
| `BabelBuffer.Buffer.DecodeValue` | re6st/routing.py:102-105 | a decoded value is that of the format at the read position, and what is pending follows it; nothing moves when decoding fails |
| `BabelBuffer.Buffer.Send` | re6st/routing.py:109-111 | what is sent followed by what is pending is what was pending |
| `BabelBuffer.Buffer.PackHeader` | re6st/routing.py:113-114 | six bytes are overwritten in place |
| `BabelBuffer.Buffer.RunEncoder` | re6st/routing.py:8-56 | the encoders append to the buffer the encoding of the value, for every format |
| `BabelBuffer.RunDecoder` | re6st/routing.py:17-61 | the decoders walk over the buffer as the decoding of the format says |
| `BabelStream.WritePacket` | re6st/routing.py:133-144 | the header filled in afterwards has the size of the payload, and both follow what was pending |
| `BabelStream.Writer.SendPacket` | re6st/routing.py:213-214 | bytes sent plus bytes pending remain the stream of the packets written |
| `BabelStream.Writer.Write` | re6st/routing.py:245-246 | a partial send keeps that too |
| `BabelStream.Reader.Read` | re6st/routing.py:222-243 | after each chunk, however the stream is cut, exactly the packets wholly received are delivered, in order |
| `BabelStream.Reader.Drain` | re6st/routing.py:228-243 | the loop ends, with fewer bytes pending than wanted |
| `BabelStream.Reader.ReadHeader` | re6st/routing.py:240-243 | the decoder and the size are those of the next packet |
| `BabelStream.Reader.ReadPayload` | re6st/routing.py:229-239 | the next packet is delivered as it was written |
| `BabelStream.WaitingMeansDelivered` | re6st/routing.py:228-243 | a reader that waits has delivered exactly the packets it has received |
| `BabelStream.AtMore` | re6st/routing.py:133-144 | a packet written later changes nothing for a reader |
| `BabelStream.AllDelivered` | re6st/routing.py:228-243 | a reader that waits and has received everything has delivered everything |
| `BabelConnection.Connection.Run` | re6st/routing.py:133-246 | end to end: packets are written, sent and received in any interleaving and by pieces of any size; at each moment what has been delivered begins what was written, is exactly the packets that have wholly arrived, and is all of them once all bytes have |
| `BabelConnection.Connection.SendPacket` | re6st/routing.py:213-214 | a packet written is appended to what was written, whatever has been read |
| `BabelConnection.Connection.Write` | re6st/routing.py:245-246 | some of the pending bytes are sent, and nothing else changes |
| `BabelConnection.Connection.Read` | re6st/routing.py:222-243 | some more of the bytes sent are received |
| `BabelConnection.Connection.NowInOrder` | re6st/routing.py:228-246 | every state of a connection is in order |
| `PortGenerator.Forwarder.constructor` | re6st/upnpigd.py:17 | the generator starts at 0 |
| `PortGenerator.Forwarder.GetExternalPort` | re6st/upnpigd.py:19-30 | each call returns the next value of the orbit from 0; new seeds are drawn exactly every 8192 calls |
| `PortGenerator.SweepIsComplete` | re6st/upnpigd.py:21-30 | between two draws of seeds every port from 32768 to 40959 is returned exactly once |
| `PortGenerator.ZeroOnlyAtTheEnd` | re6st/upnpigd.py:26-29 | the value 0, that calls for new seeds, occurs at the end of the period only |
| `FullPeriod.FullPeriodTheorem` | re6st/upnpigd.py:27-29 | for every 2^k, a multiplier 1 modulo 4 and an odd increment, the 2^k first values are distinct, are all residues, and are followed by 0 |
| `FullPeriod.SamePoint` | re6st/upnpigd.py:29 | two values of the orbit coincide exactly when 2^k divides their distance |
| `FullPeriod.GeometricDivided` | re6st/upnpigd.py:29 | 2^k divides 1 + a + ... + a^(m-1) exactly when it divides m |
| `RegistryRatchet.StepRatcheted` | re6st/registry.py:309-323 | every event keeps the remembered keys ahead of the accepted ones, from distinct handshakes, and the accepted keys distinct |
| `RegistryRatchet.NoReplay` | re6st/registry.py:316-323 | in every run, with requests lost or replayed, restarts, revocations and any number of hellos, no request key is accepted twice |
| `RegistryRatchet.ForeignKeepsInStep` | re6st/registry.py:364-366 | hellos of third parties, however many, leave a client in step with the registry |
| `RegistryRatchet.InStepAccepted` | re6st/registry.py:316-323 | a client in step is accepted, and both ends remain in step |
| `RegistryRatchet.RememberedHello` | re6st/registry.py:361-370 | in every run each remembered key has the protocol of the hello that drew its secret |
| `RegistryRatchet.AcceptedLeavesItsHello` | re6st/registry.py:316-323 | after an accepted request one entry is left, that of the handshake whose key was accepted, with its protocol |
| `RegistryRatchet.RevokedIsForgotten` | re6st/registry.py:698-704 | after a revocation or a restart nothing of the client is accepted before the next hello for it |
| `RegistryRatchet.SessionAfter` | re6st/registry.py:361-370 | foreign events leave the first remembered key; without a hello for the client they leave the whole session |
| `RegistryRatchet.FreshKeyAccepted` | re6st/registry.py:361-370 | after any foreign events the key of a handshake is accepted exactly when none of them was a hello for that client, or the registry had no session before |
| `RegistryRatchet.FreshKeyLost` | re6st/registry.py:361-370 | a concrete run in which the new key of a client is lost to a hello of somebody else |
| `RegistryCalls.Registry.constructor` | re6st/registry.py:74 | no session at the start |
| `RegistryCalls.Registry.Hello` | re6st/registry.py:361-370 | a hello for a known client replaces all but its first remembered key |
| `RegistryCalls.Registry.HandleRequest` | re6st/registry.py:309-355 | the keys are tried in order, the one that matches is hashed twice, and the answer is signed with the key in between; 401 without a session |
| `RegistryCalls.RegistryClient.TryRequest` | re6st/registry.py:897-917 | one attempt, with what is lost, and the key it leaves |
| `RegistryCalls.RegistryClient.Handshake` | re6st/registry.py:889-896 | at most one hello, whose key will be accepted |
| `RegistryCalls.RegistryClient.Call` | re6st/registry.py:883-933 | at most one handshake for each call; a client in step is answered without one, a call whose answer is lost leaves both ends in step, and two good attempts always succeed |
| `PeerSession.Peer.Hello` | re6st/x509.py:246-253 | a hello starts counting again under the new secret |
| `PeerSession.Peer.NewSession` | re6st/x509.py:258-264 | a secret is taken exactly when it is greater |
| `PeerSession.Peer.Decode` | re6st/x509.py:271-286 | a datagram is valid exactly when it is signed with the secret and its number is greater than all those accepted |
| `PeerSession.Peer.Encode` | re6st/x509.py:288-293 | numbers increase by one; it fails beyond 32 bits |
| `PeerSession.StepAdvances` | re6st/x509.py:246-286 | the secret and the last number accepted grow strictly, in lexicographic order, at each change of session and at each accepted message, and at nothing else |
| `PeerSession.AcceptedInOrder` | re6st/x509.py:191-194 | in every run, under loss, duplication and reordering, what one end has accepted is an in-order subsequence of what the other end has sent |
| `PeerSession.LastHelloWins` | re6st/x509.py:246-264 | in every run, once the other end has heard the last hello said both ends have its secret, whatever else is sent, lost, repeated or heard late |
| `PeerSession.CrossingHellos` | re6st/x509.py:258-264 | two hellos that cross, in any run: as soon as the end that spoke first has heard the other, both have the larger secret and keep it, whatever else is heard and in which order |
| `PeerSession.RunInvariant` | re6st/x509.py:191-194 | secrets and numbers sent and accepted increase in every run |
| `PeerForgetting.AcceptedAgainIff` | re6st/tunnel.py:337-350 | after any run in which ends may forget each other, a datagram accepted by an end can be accepted by it again exactly when the other end had opened its session |
| `PeerForgetting.NeverTwiceRemembering` | re6st/x509.py:271-286 | as long as an end forgets nothing, what it has accepted is never accepted again |
| `PeerForgetting.AcceptedTwice` | re6st/x509.py:207-217 | a concrete run: a message is accepted, its sender forgotten, and its hello and the message are accepted again |
| `IntegerCode.PackInteger` | re6st/utils.py:254-260 | the packed form of an integer below the limit, None from it on |
| `IntegerCode.LimitIsEightClasses` | re6st/utils.py:248-252 | the eight sizes hold exactly the integers below 0x2020202020202020 |
| `IntegerCode.UnpackPacked` | re6st/utils.py:262-269 | unpacking gives the integer and its length, whatever follows |
| `IntegerCode.PackedUnpack` | re6st/utils.py:262-269 | every complete codeword is the packing of the integer that it decodes to |
| `IntegerCode.PrefixFreeCode` | re6st/utils.py:248-252 | no codeword begins another |
| `IntegerCode.OrderPreserved` | re6st/utils.py:248-252 | comparing packed integers as strings, followed by anything, compares the integers |
| `IntegerCode.RepackRebuilds` | re6st/tunnel.py:465-470 | repacking the protocol in front of the rest rebuilds the message exactly when the protocol could be read |
| `IntegerCode.TruncatedNotRebuilt` | re6st/tunnel.py:465-470 | a concrete message that is not rebuilt |
| `Bytes.BigEndianOrder` | re6st/utils.py:258 | big-endian strings of one length are ordered as their values |
| `PeerIndex.Index.constructor` | re6st/tunnel.py:278-280 | the index starts with the node itself |
| `PeerIndex.Index.Bisect` | re6st/tunnel.py:353 | the number of peers that do not sort after x |
| `PeerIndex.Index.GetPeer` | re6st/tunnel.py:352-353 | the bisect predecessor, or the last peer when all sort after; it has the prefix x exactly when some peer has |
| `PeerIndex.FoundIsLongestMatch` | re6st/tunnel.py:352-353 | among prefix-free peers it is the one whose prefix begins the address whenever there is one, as a linear scan finds |
| `PeerIndex.FoundIff` | re6st/tunnel.py:352-353 | whatever the peers, the last longest match is the peer found exactly when every later peer whose prefix it begins sorts after the address |
| `PeerIndex.NestedPrefixMissed` | re6st/tunnel.py:352-353 | with nested prefixes a peer that begins the address can be missed |
| `PeerIndex.Index.Insort` | re6st/tunnel.py:360 | a new peer is inserted where the list stays sorted |
| `PeerIndex.Index.FindOrAdd` | re6st/tunnel.py:357-360 | the peer with that very prefix is found, or made |
| `PeerIndex.Index.PeerOfCertificate` | re6st/tunnel.py:446-453 | the peer of a certificate is found or made, unless the address is not below its prefix |
| `PeerIndex.CertificateKeepsPrefixFree` | re6st/tunnel.py:446-453 | a peer made for a certificate is the first with that prefix, and the peers stay prefix-free exactly when its prefix overlaps none of theirs |
| `PeerIndex.Index.CollectExpired` | re6st/tunnel.py:338-347 | the expired peers and the next expiry, unless the own certificate has expired |
| `PeerIndex.Index.DeleteMarked` | re6st/tunnel.py:348-349 | deleting from the end removes exactly the marked peers and keeps the order |
| `PeerIndex.Index.InvalidatePeers` | re6st/tunnel.py:337-350 | exactly the expired peers go, and the earliest date of those left is returned |
| `PeerIndex.Index.DropRevoked` | re6st/tunnel.py:599-601 | exactly the peers with a revoked certificate go |
| `PeerIndex.RestOrdered` | re6st/tunnel.py:348-349 | what remains after a deletion is sorted and prefix-free |
| `TunnelPool.NamesLeft` | re6st/tunnel.py:694-696 | the names not in use are as many as the connections that can still be made |
| `TunnelPool.UseFresh` | re6st/tunnel.py:715-727 | taking a name that was never made keeps each name in one place and one connection for each name in use |
| `TunnelPool.UseFree` | re6st/tunnel.py:736-742 | so does taking a free interface |
| `TunnelPool.GiveBack` | re6st/tunnel.py:744-746 | and giving one back |
| `TunnelManager.Manager.constructor` | re6st/tunnel.py:670-699 | all names are there, none is made, and there is no connection |
| `TunnelManager.Manager.GetFreeInterface` | re6st/tunnel.py:736-742 | a free interface is taken before a new one is made |
| `TunnelManager.Manager.MakeTunnel` | re6st/tunnel.py:866-904 | a tunnel is opened exactly when the peer has none in either direction and some address is usable; the pool is never found empty |
| `TunnelManager.Manager.AddressReceived` | re6st/tunnel.py:486-494 | the tunnel takes the place of the request, which is forgotten in any case |
| `TunnelManager.Manager.FromDistant` | re6st/tunnel.py:972-979 | peers are tried in order until the count is used up or none is left, and each one tried has a tunnel, is asked for its address, or cannot be |
| `TunnelManager.Manager.FromCache` | re6st/tunnel.py:983-991 | at most count tunnels, all to cached peers without a route; if fewer, every such peer that accepts one has a tunnel |
| `TunnelManager.Manager.LastChance` | re6st/tunnel.py:1000-1004 | exactly one tunnel, to the first failed peer that accepts one, none when none does |
| `TunnelManager.Manager.Bootstrap` | re6st/tunnel.py:980-1004 | sources of addresses in order: the unrouted peers of the cache, up to the count; if none accepts and no node is known, the peer that the registry gives when the cache is empty; else the first failed peer that accepts |
| `TunnelManager.Manager.AskBootstrap` | re6st/tunnel.py:948-961 | exactly one tunnel to the peer that the registry gives, if it accepts one and there is no route to it; without any such peer the node is taken for connected |
| `TunnelManager.Manager.CheckConnected` | re6st/tunnel.py:918-961 | when the cache is used, and until when a node without a route to the registry waits; an attached node opens nothing |
| `TunnelManager.Manager.RejoinsOncePerDelay` | re6st/tunnel.py:930-947 | a node without a route to the registry looks for peers in its cache once, and not again before the delay has passed |
| `TunnelManager.Manager.MakeNewTunnels` | re6st/tunnel.py:906-1004 | connections plus pending requests never exceed the client count, and no tunnel is closed; in normal operation the distant peers are tried in order until the budget is filled or none is left; a node that lost the registry, or the node of the registry when alone, rejoins through the registry and its cache; a dump is asked for exactly when the list is too short or the node must bootstrap |
| `TunnelManager.Manager.Kill` | re6st/tunnel.py:850-861 | the tunnel and its interface are given back and its killer aborted |
| `TunnelManager.Manager.AbortTunnelKiller` | re6st/tunnel.py:840-848 | a killer that has locked is aborted if the interface is its own, one that has not is forgotten |
| `TunnelManager.Manager.KillMessage` | re6st/tunnel.py:521-532 | a request starts a killer for a served peer, an agreement kills a tunnel that is locked; it fails exactly when that tunnel is not one that this node has opened |
| `TunnelManager.AgreedWithoutTunnel` | re6st/tunnel.py:521-532 | a concrete run after which an agreement fails: the tunnel locked is one that the peer has opened |
| `TunnelManager.Manager.DumpKilling` | re6st/tunnel.py:769-781 | at each dump killers whose time is over restore what they locked and go, the others take their step; the other end is told exactly when babeld reports the link unused |
| `TunnelManager.Manager.LeastUseful` | re6st/tunnel.py:806-826 | no tunnel has a lower score |
| `TunnelManager.Manager.ChooseTunnel` | re6st/tunnel.py:828-838 | one is chosen exactly when they are as many as allowed and not just the preferred ones, and no other has a lower score |
| `TunnelManager.ScoresCompare` | re6st/tunnel.py:806-826 | comparing scores: a tunnel without routes is the least useful, then those that are not preferred, then those with fewer routes |
| `TunnelManager.Manager.RemoveSomeTunnels` | re6st/tunnel.py:828-838 | the killing of the chosen tunnel begins |
| `TunnelManager.Manager.BabelDump` | re6st/tunnel.py:764-795 | a dump steps or removes the killers, tells the other ends, begins to kill the least useful tunnel when it is time, and then opens tunnels; it keeps the budget, the interfaces, the accounts with babeld and the deadlines |
| `TunnelManager.DumpPutsBack` | re6st/tunnel.py:764-786 | what a dump does to the killers keeps all links put back exactly when it is not stale for the tunnel chosen; it is not when that tunnel had no killer that had locked |
| `TunnelManager.ChosenAgain` | re6st/tunnel.py:771-786 | nothing in a dump prevents it from choosing the tunnel whose killer it has just removed |
| `TunnelManager.Manager.RetryTunnel` | re6st/tunnel.py:128-141 | a dead process is retried with the next address, or given up |
| `TunnelPool.EachAddressOnce` | re6st/tunnel.py:128-141 | every address is tried, and each one once |
| `TunnelManager.Manager.CleanDeads` | re6st/tunnel.py:797-804 | exactly the dead tunnels that have no address left to try are killed, and the others kept |
| `TunnelManager.Manager.Connected` | re6st/tunnel.py:109-120 | an established tunnel is kept, or killed when its certificate is revoked |
| `TunnelManager.Manager.ClientConnect` | re6st/tunnel.py:621-632 | a peer with a revoked certificate is refused; of two tunnels that cross the one opened by the node with the greater prefix is kept |
| `TunnelManager.Manager.ClientDisconnect` | re6st/tunnel.py:634-646 | the interface is no longer served, and the killer of that tunnel is aborted; it fails exactly when that killer has locked over an interface that the dump does not name |
| `TunnelManager.ClosedOnlyItsOwn` | re6st/tunnel.py:840-848 | the end of a tunnel undoes the killer that has locked over that very interface, forgets one that has not locked, and touches no other |
| `TunnelManager.InterfaceGone` | re6st/tunnel.py:634-646 | a concrete run in which the interface of a killer is missing from the latest dump |
| `TunnelManager.Manager.KillAll` | re6st/tunnel.py:1006-1008 | no tunnel is left |
| `TunnelManager.Manager.DelInterfaces` | re6st/tunnel.py:729-734 | after all tunnels are killed every name is back among those to be made |
| `TunnelKilling.TunnelKiller.constructor` | re6st/tunnel.py:147-152 | a killer begins with a deadline of two timeouts and takes its first step at once |
| `TunnelKilling.TunnelKiller.Call` | re6st/tunnel.py:161-191 | soft lock, hard lock when no route is left, then locked or given up; the other end is told once locked |
| `TunnelKilling.TunnelKiller.Unlock` | re6st/tunnel.py:193-196 | the recorded cost multiplier is sent if anything was locked |
| `TunnelKilling.TunnelKiller.Abort` | re6st/tunnel.py:198-201 | the deadline is set once, two timeouts later |
| `TunnelKilling.NextSound` | re6st/tunnel.py:143-203 | every step keeps the accounts and the deadlines, and killers only advance |
| `TunnelKilling.ToldExactly` | re6st/tunnel.py:161-196 | a link is made unusable exactly at a dump that shows nothing routed through it, by a killer in time that had made it costly; made costly exactly when its killer first knows the neighbour; and restored exactly when the time of the killer that locked it is over |
| `TunnelKilling.SteppedAt` | re6st/tunnel.py:161-191 | what becomes of each killer at a dump, in each state |
| `TunnelKilling.GivenUpIsGone` | re6st/tunnel.py:184-191 | in every run a killer whose link a dump does not report locked is gone at any later dump, unless it is aborted or another one starts |
| `TunnelKilling.LocksAreRestored` | re6st/tunnel.py:161-201 | in every run each neighbour that was locked is owned by a killer until it is restored exactly once, to the multiplier that the killer recorded from the dump at hand |
| `TunnelKilling.GoneInTimeIff` | re6st/tunnel.py:771-781 | a killer is gone by the first dump later than six timeouts after its creation exactly when it was not aborted later than four |
| `TunnelKilling.LateAbort` | re6st/tunnel.py:198-201 | the bound of six timeouts fails: a killer aborted long after its deadline, without a dump in between |
| `TunnelRestoring.FairIff` | re6st/tunnel.py:161-201 | orders for one tunnel that make sense leave every link, each time, with the multiplier it had before any lock exactly when each lock recorded the multiplier that the link had at that moment |
| `TunnelRestoring.PutBackIsFair` | re6st/tunnel.py:161-201 | all links are put back exactly when the orders for each tunnel put back every link |
| `TunnelRestoring.StepPutsBack` | re6st/tunnel.py:764-786 | from a moment when all links are put back they remain so exactly unless a killing starts by a dump that shows, for its link, another multiplier than the one restored at that dump |
| `TunnelRestoring.PutBackIff` | re6st/tunnel.py:764-786 | so in every run of a node and of babeld, whenever dumps are asked for and however late they come |
| `TunnelRestoring.OncePerDump` | re6st/tunnel.py:771-786 | in every run all links are put back if no killing starts for a tunnel whose killer, having locked, was removed at the latest dump |
| `TunnelRestoring.LockedTwice` | re6st/tunnel.py:771-786 | a concrete run in which the killing of a tunnel starts again at the dump that removed its killer: in the end no killer is left and the link keeps the multiplier of the lock |
| `KeyRotation.KeyTable.UpdateHMAC` | re6st/registry.py:718-747 | the next table of the rotation, an end of validity exactly while two keys are announced, and a new version |
| `KeyRotation.KeyTable.GetNetworkConfig` | re6st/registry.py:622-632 | at most two keys, named in order; it fails on a third one and on an empty one |
| `KeyRotation.UpdateTurns` | re6st/tests/test_unit/test_registry.py:386-430 | the rotation goes through the tables of the test of `updateHMAC` |
| `KeyRotation.NeighboursAgree` | re6st/registry.py:718-735 | in every run at most two keys are published, and the intended configurations before and after a step accept each other |
| `KeyRotation.TwoStepsIff` | re6st/registry.py:718-735 | two steps apart they do exactly when the first one makes stable a key that is already in use |
| `KeyRotation.HeldIs` | re6st/registry.py:627-632 | what nodes hold: the table of the very first step cannot be served, since an empty key is not serialised |
| `KeyRotation.HeldAgreeIff` | re6st/registry.py:627-632 | so what nodes really hold before and after a step agrees but for the step after that one |
| `KeyRotation.FirstKeyNotServed` | re6st/registry.py:734-737 | the concrete case of a network that gets its first key |
| `VersionGossip.WireOrder` | re6st/tunnel.py:512-514 | versions are compared as strings, with their signatures, which compares their numbers |
| `VersionGossip.RegistryVersion.IncreaseVersion` | re6st/registry.py:212-214 | each version is greater than the one before, also as a string |
| `VersionGossip.Node.Receive` | re6st/tunnel.py:503-518 | a greater version is adopted, a smaller one is answered with a greater one, an invalid one is ignored |
| `VersionGossip.Node.NewVersion` | re6st/tunnel.py:583-595 | the version becomes that of the configuration fetched, never smaller than before |
| `VersionGossip.Node.BroadcastNewVersion` | re6st/tunnel.py:570-578 | the version goes to exactly the neighbours that are not known to have it |
| `VersionGossip.NeverAhead` | re6st/tunnel.py:503-518 | in every run no node is ahead of the registry |
| `VersionGossip.DecreasesIff` | re6st/tunnel.py:227 | a version decreases in a step exactly when a node restarts before it has fetched the configuration it had heard of |
| `VersionGossip.VersionForgotten` | re6st/tunnel.py:227 | a concrete run in which a node hears of a version, starts again and has forgotten it |
| `VersionGossip.ChainsEnd` | re6st/tunnel.py:471-475 | each answer is strictly greater than what it answers, so that chains of answers are bounded by the versions that are left |

## Left out

- HTTP, sockets, SQLite, OpenVPN, babeld, UPnP, mail, logging and the command-line programs: input and output around the logic. SQL tables are maps or sequences, and a failing subprocess is not modelled.
- Certificates, RSA, `openssl`, the CRL table and the subject serials: a row of the `cert` table holds the certificate serial and its end of validity.
- E-mail addresses, tokens and their expiry, and the choice of the community: the community is a parameter of the allocation. The next date of a timeout is not computed.
- Revocation by serial number, and whether a renewal is due: a renewal is modelled for the rows where the code does one.
- The check of the configured communities at startup (re6st/registry.py:115-129).
- The docstring of `Forwarder` gives the ports 32768 to 49151; the code produces 32768 to 40959, and so does the model. The loop that refreshes the rules is left out.
- Validity of UTF-8 in strings: a string is its bytes. The messages of `struct.error` and the KeyError on an unknown packet type are left out; an encoder or decoder that fails gives None.
- The state of a decoder across a reconnection to babeld, and replies that arrive after one: one connection is modelled.
- How the neighbours, routes and locked links are built from the four arrays of a dump (re6st/routing.py:248-297): the result is the value `Dump`.
- Keep-alive (`_last`), the 60 seconds between hellos and the connection state of a peer: only secrets and sequence numbers are modelled.
- Datagrams reflected to their sender, and a key known to others than the two ends.
- A method that answers 403 makes the client raise and keep its key; the other errors are one.
- A wrong HMAC makes the request handler raise, which the server turns into status 400 (re6st/cli/registry.py:21-35); `RegistryCalls` returns that status.
- Floating point: the number of contractions is cut from n / 1.414 exactly, and the logarithm that gives the number of rounds is a parameter. Average distances and other statistics are left out, as are the numbers of routes that an update reports.
- MinCut.SearchCut: the edge to merge is left open each time, so that nothing tells the choices made in the two copies apart.
- Overflow of C++ integers, and the undefined draw from a graph without live edge.
- The generator of the first graph of simulation/graph.cpp and its other measures.
- Countries, disabled protocols and address parsing: an address is the number of its alternatives that may be tried. The count of gateways (`MultiGatewayManager`) is left out.
- Two tunnel killers at the two ends of one tunnel are not modelled together; each one is, with the messages that it sends and receives.
- TunnelKilling.GoneInTimeIff: time is measured when a dump is handled; `slack` bounds the time that passes between the reading of the clock for the dump and that of a killer.
- TunnelRestoring.PutBackIff: a neighbour that babeld forgets, with its multiplier, is not modelled, nor a restart of babeld.
- PeerForgetting.AcceptedAgainIff: that the forgotten peer must first show a valid certificate again, which delays the hello, is left out.
- Timers: `_next_refresh`, `_next_tunnel_refresh` and the like are parameters or left out.
- KeyRotation.HeldIs: a node that asks after every step is modelled; when nodes ask is not.
- What babeld does with keys is the predicate `Accepts`: a message is accepted when it is signed with one of the keys given to babeld, when none is given, or when bad signatures are accepted (re6st/plib.py:91-101).
- Multicast, netlink, GeoIP, the debug console, packaging, the demo and draft scripts.
