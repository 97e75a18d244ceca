# An OLSR router, verified

This project models the routing core of an OLSR daemon (RFC 3626 with multicast
extensions) in Dafny 4.11 and proves what that core is for: shortest paths that
deliver hop by hop without loops, relays that cover every two-hop node and are close to
the fewest possible, flooding that reaches every router within a bound, a packet format
that reads back what it writes, and multicast state that survives down to the kernel
form.

`dafny verify dfyconfig.toml` checks everything.

## How it is laid out

| part | modules |
|---|---|
| shortest paths and the unicast table | `Graphs`, `PriorityQueues`, `ShortestPaths`, `Prefixes`, `RouteTables`, `Spf`, `Delivery`, `Lookups` |
| published differences and their replay | `TableSync`, `Standalone` |
| neighbours and multipoint relays | `GreedyCover`, `NeighborTables`, `LinkLife`, `Neighbors`, `Expiry` |
| packets | `Messages`, `TimeCodes`, `Wire`, `WireProofs`, `Layouts`, `Codec` |
| duplicates, topology, aliases | `Duplicates`, `Topology`, `Aliases` |
| the router as a whole, relaying and flooding | `Routers`, `Relay`, `Daemon`, `Flood`, `Network`, `Convergence` |
| multicast | `Molsr`, `Mroute`, `LoopPrevention` |
| request limiting | `RateLimit` |

Managers that update fields in place are classes whose methods are proved against
functions and predicates on values; what the protocol promises is then proved about
those. A loop over a Go map may visit the keys in any order, so everything that is
proved holds for every order.

The flooding results are built in layers. `Routers.MessageStep` says what one message
does to all of a router's tables and `Relay.HandleAll` what a router sends on; `Daemon`
proves that the code does both. `Network` composes such routers into a network with a
clock, ageing and other traffic and shows that each run of it is a run of the abstract
flood in `Flood`, whichever routers relay. Where relaying follows the rule, a second
invariant gives reachability: for source claims on any connected graph, for other
messages when relays cover and selector tables mirror them. `Convergence` shows that the
relays chosen by `Neighbors` cover, and what these daemons' own HELLOs make of flooding.

## Where code and documentation differ

The model follows the code.

- The overview says that paths use symmetric links. The code takes every link that is
  not lost as an edge (`internal/olsr/spf.go:186-220` with
  `internal/olsr/neighbor.go:377-389`). Routes leave over links that are not lost
  (`Routers.RoutesUseListedLinks`), over symmetric ones exactly if every listed neighbour
  has one (`Routers.RoutesSymmetricIff`), and one HELLO that names nobody is an input for
  which they do not (`Routers.AsymmetricIsRouted`).
- The overview calls the relay set minimal. The code is greedy: the choice is least if
  the forced relays leave at most three nodes (`GreedyCover.GreedyLeastUpToThree`), four
  nodes are enough for it to take three relays where two suffice
  (`GreedyCover.GreedyNotLeast`, and from neighbour tables
  `NeighborTables.MprNotLeast`), and it is always within the harmonic factor.
- The time code claims section 18.3 of RFC 3626 but uses powers of ten and a factor of
  0.06 seconds. Between 31 and 160 units of a decade there is no code, which is where
  the worst relative error, 129/191, comes from.
- The time of a code with exponent above 11, or with exponent 11 and mantissa above 8,
  does not fit a 64-bit duration (`TimeCodes.FitsIff`). Such a code can be received. Where
  an overflow gives the most negative duration, decoding and encoding gives a code back
  exactly if it fits (`TimeCodes.WrappedRoundTripIff`), where it gives the greatest one,
  for one code more (`TimeCodes.SaturatedRoundTripIff`). Everything stated about decoded
  times elsewhere is about codes that fit; relaying keeps a message's bytes exactly if its
  codes survive (`WireProofs.RelayingIsFaithfulIff`). The serializer writes only codes
  that fit for durations up to 9187500000000000000 nanoseconds
  (`TimeCodes.EncodeFitsIff`). A message whose validity overflowed to a
  negative duration is forgotten at once (`Duplicates.RememberedIff`).
- HELLOs list neighbours as symmetric but never as relays, so in a network of these
  daemons no selector table ever fills (`Daemon.NobodyIsSelected`,
  `Convergence.SelectorsStayEmpty`) and only source claims are relayed
  (`Daemon.OnlyClaimsRelayed`). A flood that is over has then reached everyone exactly if
  it was a source claim or everyone hears the origin (`Convergence.DaemonsReachedIff`);
  three routers in a line are an input where a topology message does not
  (`Network.LineStopsShort`).
- Section 8.3.1 of RFC 3626 leaves out two-hop nodes that are one-hop neighbours. The
  code leaves out only those whose willingness is above WILL_NEVER.
- The rule for topology sequence numbers is not the one of section 19 of RFC 3626: it
  also takes stale numbers that lie more than 32768 above the stored one
  (`Topology.AcceptsExactly`).

## Results that are negative or conditional

- A relay can leave the symmetric neighbours when a HELLO's sender is not its
  originator: exactly when (`NeighborTables.HelloBreaksRelaysIff`), and a concrete run
  (`NeighborTables.RelayedHelloBreaksRelays`).
- The parser panics on some inputs: exactly which (`WireProofs.PanicsIffStuck`,
  `WireProofs.MessagePanicsIff`), and two of them (`WireProofs.SizeZeroPanics`,
  `WireProofs.LinkSizeZeroPanics`).
- Each failed registration of an interface uses up a kernel interface number for good
  (`Mroute.FailuresExhaust`).
- Two primaries that declare the same alias can leave it unresolved: exactly when the
  tables stay consistent (`Aliases.DeclareConsistentIff`), and a concrete run
  (`Aliases.TakeoverLosesAlias`).
- A changed metric alone is not published, so replay agrees up to the metric
  (`Spf.UnicastReplay`). It is exact after every recalculation if and only if none
  changed a metric alone (`Spf.UnicastReplayExactIff`); in `Spf.StaleMetric` a network
  announced first by a neighbour and then from behind it does. The outgoing interfaces of a multicast entry are compared as
  lists, so an unchanged set may be published again in another order; the replayed
  table is still exact (`Molsr.MfcReplayExact`).
- Replay takes every add as an upsert, as the Zebra and multicast subscribers do. The
  standalone unicast subscriber adds exclusively, keyed by prefix and metric: it agrees
  with the active table after every recalculation if and only if none changed the next
  hop or interface of a prefix (`Standalone.StandaloneAgreesIff`); `Standalone.StaleHop`
  is a history that does.
- The two loop-prevention modes agree on all packets to multicast groups
  (`LoopPrevention.MulticastAlwaysAgrees`). Nothing checks that a flow's group is
  multicast, and only packets to 224.0.0.0/4 are queued, so on all packets they agree
  exactly if each IPv4 flow with a route has a multicast group
  (`LoopPrevention.ModesAgreeAfterIff`); `LoopPrevention.UnicastGroupDiffers` is an input
  on which they differ. Flows with IPv6 addresses are skipped by one mode and never queued
  in the other.
- Links are filed under the addresses HELLOs come from, neighbours and selectors under
  their originators' identities, and a router looks for its own identity among its
  neighbour's link addresses. Where no router sends from its identity, no neighbour is
  listed and no route calculated (`Routers.NothingRouted`), and a router whose identity is
  nowhere a link address never has a symmetric neighbour (`Daemon.UnknownStaysAlone`).
  The flooding results name routers by identity and let their packets come from any
  address (`heardAs`); what they ask of selector tables, they ask under those addresses.
- A HELLO that does not change its sender's link can leave a node without a relay until
  the next recalculation: exactly when (`NeighborTables.HelloLeavesOutIff`), and one that
  does (`NeighborTables.LateNewsLeavesOut`).

## Model

| member | source | states |
|---|---|---|
| PriorityQueues.PriorityQueue.Push | internal/olsr/spf.go:51-56 | after pushing, the queue is a heap again and holds exactly the old items and the new one |
| PriorityQueues.PriorityQueue.Pop | internal/olsr/spf.go:57-65 | popping gives an item of least priority among all queued, takes out that one and leaves a heap |
| PriorityQueues.SiftUpStep | internal/olsr/spf.go:42-50 | one upward exchange moves the only place where heap order may fail to the parent |
| PriorityQueues.SiftDownStep | internal/olsr/spf.go:42-50 | one downward exchange with the cheaper child moves the only place where heap order may fail to that child |
| PriorityQueues.RootIsLeast | internal/olsr/spf.go:42-44 | the first item of a heap has the least priority |
| ShortestPaths.Settle | internal/olsr/spf.go:233-238 | the node of a least queue item that is not visited has its final distance: visiting it keeps the search invariant although stale items stay queued |
| ShortestPaths.SkipStale | internal/olsr/spf.go:234-237 | dropping a stale duplicate item keeps the search invariant |
| ShortestPaths.ImproveLink | internal/olsr/spf.go:240-247 | relaxing a link with a shorter way never touches a visited node and keeps distances attained, parents settled and every open node queued |
| ShortestPaths.RelaxedBoundsWalks | internal/olsr/spf.go:240-247 | once all links are relaxed, no walk from the source is shorter than the recorded distance of its end |
| ShortestPaths.SearchDone | internal/olsr/spf.go:222-251 | when the queue is empty the distances are exactly those of the reachable nodes, and each parent link is tight: a shortest-path tree |
| Spf.SPFEngine.RunDijkstra | internal/olsr/spf.go:222-251 | terminates with a distance for exactly the reachable nodes, each the least cost of any walk, and parents forming a shortest-path tree, on every graph |
| Spf.SPFEngine.RelaxLinks | internal/olsr/spf.go:240-248 | the loop over a node's links, in any order, restores the search invariant with that node visited |
| Spf.SPFEngine.BuildAdjacencyList | internal/olsr/spf.go:186-220 | the edges are exactly the known links: own neighbours both ways, two-hop links and topology tuples, all at cost one |
| Spf.SPFEngine.ResolveNextHop | internal/olsr/spf.go:253-266 | the walk along parents terminates, succeeds for exactly the reachable nodes other than the router, and gives a first hop of a shortest path |
| Spf.AddHost | internal/olsr/spf.go:121-141 | entering one more host route keeps the table exact for the hosts seen so far |
| Spf.SeeEntry | internal/olsr/spf.go:143-168 | a gateway entry that replaces a route only if strictly better keeps each prefix at the least metric of all seen, whatever the order |
| Spf.TableDone | internal/olsr/spf.go:121-168 | when all hosts and entries are seen, the table is the route table of the graph |
| Spf.SPFEngine.CalculateRoutes | internal/olsr/spf.go:110-184 | fails exactly without a router identity; otherwise the active table has a route for exactly the prefixes someone reachable serves, each of least metric along a shortest path, and exactly the difference is published |
| Spf.SPFEngine.DiffAndPublishRoutes | internal/olsr/spf.go:268-301 | publishes one event for each prefix that appeared, vanished or changed next hop or interface, and none for others |
| Spf.SPFEngine.GetNextHopForDest | internal/olsr/spf.go:317-356 | answers with the host route if there is one, else with a longest parsable prefix containing the address, else nothing |
| Spf.LongestMatchUnique | internal/olsr/spf.go:317-356 | with masked prefixes the longest match, hence the answer, does not depend on map order |
| Spf.ShortcutIsLongestMatch | internal/olsr/spf.go:317-330 | for IPv4 the host-route shortcut gives exactly what the full scan would |
| Spf.OneNetwork | internal/olsr/spf.go:333-356 | with one network in the table a lookup finds its next hop for exactly the addresses in its range |
| Spf.UnicastReplay | internal/olsr/spf.go:268-301 | over any number of recalculations, replaying all published events from an empty table gives the active table up to metrics |
| Spf.UnicastReplayExactIff | internal/olsr/spf.go:276-282 | metrics included, the replayed table equals the active one after every recalculation if and only if none changed a metric alone |
| Spf.StaleMetric | internal/olsr/spf.go:276-282 | a network is announced first by a neighbour and then by a node behind it: both tables are route tables of one graph, such histories exist, and each leaves the old metric installed |
| Prefixes.MaskedUnique | internal/olsr/spf.go:333-350 | two masked prefixes of one length that contain the same address are the same prefix |
| Prefixes.HostPrefixUnique | internal/olsr/spf.go:317-330 | only an IPv4 address's own /32 prefix of that length contains it |
| Prefixes.ContainsExactly | internal/olsr/spf.go:337-353 | a masked prefix contains exactly the addresses of its family in a range that starts at its own and has a power of two of them |
| Prefixes.ContainsV4 | internal/olsr/spf.go:337-353 | for IPv4: those from a up to a + 2^(32 - n), not included |
| Prefixes.KnownPrefixes | internal/olsr/spf_test.go:100-145 | 192.168.100.0/24 contains 192.168.100.50 and not 192.168.101.50, 0.0.0.0/0 every IPv4 address, 224.0.0.0/4 exactly 224.0.0.0 to 239.255.255.255 |
| RouteTables.TablesAgree | internal/olsr/spf.go:110-168 | two tables computed from the same inputs in any order have the same prefixes at the same metrics |
| RouteTables.LinksExactly | internal/olsr/spf.go:186-220 | link by link: neighbours both ways, two-hop nodes from their neighbour, destinations from their last hop, all at cost one, and no others |
| RouteTables.EntriesOffer | internal/olsr/spf.go:143-168 | a remote entry offers its network at its gateway's distance plus one, a local entry nothing, a node its own /32 prefix at its distance |
| RouteTables.FirstHopIsNeighbor | internal/olsr/spf.go:186-266 | if nothing own is stored as remote, each first hop is a listed neighbour |
| TableSync.ReplayDiff | internal/olsr/spf.go:268-301 | a subscriber that takes adds as upserts, agrees with the old table and handles the published difference agrees with the new table |
| TableSync.ReplayRefinesTable | internal/olsr/molsr.go:347-396 | over any number of recalculations from empty, the table of such a subscriber agrees with the last one computed |
| TableSync.ReplayDiffExactIff | internal/olsr/spf.go:268-301 | for such a subscriber one difference makes the old table exactly the new one if and only if no value changed to an interchangeable one |
| TableSync.ReplayExactIff | internal/olsr/spf.go:268-301 | the same over any number of recalculations |
| Standalone.DiffAgreesIff | internal/uroute/uroute_linux.go:32-67 | a kernel table with one route for each prefix and metric, added to exclusively, stays in agreement over one difference if and only if no prefix changed its next hop or interface |
| Standalone.StandaloneAgreesIff | cmd/olsrd/daemon.go:311-347 | the same over any number of recalculations from an empty kernel table |
| Standalone.StaleHop | cmd/olsrd/daemon.go:311-347 | a node first reached by way of one neighbour and then of another: both are route tables, such histories exist, and each leaves the kernel in disagreement |
| Delivery.HopDescends | internal/olsr/spf.go:121-168 | between routers with tables for one graph, the metric drops by one at each hop until an endpoint of the prefix is reached |
| Delivery.Delivered | internal/olsr/spf.go:121-168 | following next hops from any router with a route reaches an endpoint, for a host prefix in exactly metric hops and for a gateway prefix in at most that many |
| Delivery.NeverRevisits | internal/olsr/spf.go:121-168 | between such routers, every path along which each router hands on to its next hop is free of loops |
| Delivery.PathsEnd | internal/olsr/spf.go:121-168 | and is no longer than the metric it starts with |
| Lookups.LookupHands | internal/olsr/spf.go:317-356 | what the lookup method promises for an IPv4 address is a longest match of the table, or that there is none |
| Lookups.AddressPathIsPrefixPath | internal/olsr/spf.go:317-356 | with masked prefixes, all routers on a path of lookups for one address use the same prefix |
| Lookups.AddressPathsEnd | internal/olsr/spf.go:317-356 | every path along which each router forwards by its own lookup for the address is free of loops and no longer than the metric it starts with |
| Lookups.DeliveredByAddress | internal/olsr/spf.go:317-356 | and from a router with a match such a path ends at one that serves a prefix containing the address at least as long as any it has |
| GreedyCover.PickShrinks | internal/olsr/neighbor.go:244-256 | each pick takes exactly its gain off the uncovered set |
| GreedyCover.PickIsGreatest | internal/olsr/neighbor.go:284-319 | no candidate covers more of what is left than the pick, none that covers as much is more willing, and none of those has more two-hop entries |
| GreedyCover.ForcedExactly | internal/olsr/neighbor.go:223-238 | the forced picks are exactly those that alone cover some node |
| GreedyCover.ShareBound | internal/olsr/neighbor.go:284-319 | if nobody gains more than k, a cover of the rest with c members leaves at most k times c nodes |
| GreedyCover.GreedyRunBound | internal/olsr/neighbor.go:244-256 | the number of greedy picks plus the budget left never exceeds the harmonic budget at the start |
| GreedyCover.GreedyNearOptimal | internal/olsr/neighbor.go:223-256 | every cover C contains the forced picks S, and the chosen set has at most S + H(n) times (C - S) members, n being what S leaves uncovered |
| GreedyCover.GreedyLeastUpToThree | internal/olsr/neighbor.go:223-256 | if the forced picks leave at most three nodes, no cover by candidates is smaller than the choice |
| GreedyCover.GreedyNotLeast | internal/olsr/neighbor.go:284-319 | for a cover problem of four nodes every greedy choice has three members although two candidates suffice |
| GreedyCover.CrossingChoice | internal/olsr/neighbor.go:284-319 | and there is such a choice |
| NeighborTables.MprCoverage | internal/olsr/neighbor.go:211-282 | after recalculation each node with an unexpired link through a willing symmetric neighbour, unless it is one itself, is reached by a relay, and all relays are such neighbours |
| NeighborTables.MprNearOptimal | internal/olsr/neighbor.go:211-319 | against every set of willing neighbours that reaches all nodes to cover, the relay set is within the harmonic factor |
| NeighborTables.MprNotLeast | internal/olsr/neighbor.go:211-319 | neighbour tables for which every recalculation chooses at least three relays although two neighbours reach all nodes to cover |
| NeighborTables.HelloLeavesOutIff | internal/olsr/neighbor.go:144-151 | a HELLO leaves a node without a relay exactly if it does not change the sender's link, the node is reached but no willing neighbour, and neither the originator by this HELLO nor another relay reaches it |
| NeighborTables.LateNewsLeavesOut | internal/olsr/neighbor.go:144-151 | one that does: a symmetric neighbour names a node for the first time in a later HELLO |
| NeighborTables.RunKeepsTwoHops | internal/olsr/neighbor.go:190-208 | in every state of every run, two-hop lists belong to symmetric neighbours and name neither this router nor their owner |
| NeighborTables.RunKeepsFlags | internal/olsr/neighbor.go:95-158 | in every run of HELLOs straight from their originators, flags agree with link states and relays stay symmetric |
| NeighborTables.HelloBreaksRelaysIff | internal/olsr/neighbor.go:144-151 | with other senders, a HELLO makes a relay asymmetric exactly if its originator is a relay that no longer hears us and the sender's link was asymmetric or new |
| NeighborTables.RelayedHelloBreaksRelays | internal/olsr/neighbor.go:95-158 | a run of two HELLOs that exists and always ends with a relay that is not symmetric |
| NeighborTables.AgesInOrder | internal/olsr/neighbor.go:322-374 | dropping lists of lost neighbours first hides no expiry that decides about recalculation |
| LinkLife.HearsUsInNumbers | internal/olsr/neighbor.go:160-174 | by the bits of the link code: which HELLOs hear this router |
| LinkLife.SelectsUsInNumbers | internal/olsr/neighbor.go:176-188 | which name it as relay |
| LinkLife.AdvertisedInNumbers | internal/olsr/neighbor.go:190-208 | and which nodes they call neighbours |
| LinkLife.HelloRenewsLink | internal/olsr/neighbor.go:103-127 | a HELLO renews its sender's link to now + vtime whatever it was before, sets the time that goes with its state, keeps the other, and touches no other link |
| LinkLife.HelloRenewsNeighbor | internal/olsr/neighbor.go:129-138 | and sets its originator's willingness and flag, and no other's |
| LinkLife.HelloRenewsTwoHops | internal/olsr/neighbor.go:190-208 | and replaces its originator's two-hop list by what it names, until now + vtime, or drops it, and touches no other |
| LinkLife.HelloRenewsSelector | internal/olsr/neighbor.go:140-144 | and enters its originator as selector until now + vtime exactly if it names this router as relay |
| LinkLife.HelloRecalculates | internal/olsr/neighbor.go:149-157 | and chooses relays anew exactly if the link's state is another, a new link counting as asymmetric |
| LinkLife.AgingLosesLinks | internal/olsr/neighbor.go:330-342 | an ageing pass loses exactly the links past their expiration and changes nothing else about a link |
| LinkLife.AgingClearsFlags | internal/olsr/neighbor.go:335-338 | clears exactly the flags of neighbours whose link it loses |
| LinkLife.AgingDropsTwoHops | internal/olsr/neighbor.go:339-354 | keeps exactly the two-hop entries that have not expired in lists whose link it does not lose, and no empty list |
| LinkLife.AgingDropsSelectors | internal/olsr/neighbor.go:356-362 | keeps exactly the unexpired selectors |
| LinkLife.AgingRecalculates | internal/olsr/neighbor.go:364-371 | and chooses relays anew exactly if it lost a link or some entry had expired |
| LinkLife.LinkLives | internal/olsr/neighbor.go:103-342 | over every run, a link stays as its last HELLO made it until the first ageing pass after now + vtime, which loses it |
| LinkLife.SelectorLives | internal/olsr/neighbor.go:140-362 | over every run, a selector stays until the first ageing pass after the time of the last HELLO that named this router |
| LinkLife.ChoiceInNumbers | internal/olsr/neighbor.go:211-282 | coverage by the relays, spelled out on the tables with willingness of at least one |
| LinkLife.CandidatesInNumbers | internal/olsr/neighbor.go:284-319 | who may be picked, and that a tie goes by willingness and then by the number of two-hop entries, expired or not |
| Neighbors.NeighborManager.ProcessHello | internal/olsr/neighbor.go:95-158 | the whole new state, with recalculation and one event exactly when the sender's link changed state |
| Neighbors.NeighborManager.CheckLocalSymmetricLink | internal/olsr/neighbor.go:160-174 | true exactly if some link message of a hearing code lists this router |
| Neighbors.NeighborManager.CheckMPRSelection | internal/olsr/neighbor.go:176-188 | true exactly if some link message of the relay type lists this router |
| Neighbors.NeighborManager.UpdateTwoHopLinks | internal/olsr/neighbor.go:190-208 | the list becomes exactly the advertised neighbours but this router and the originator, or is dropped |
| Neighbors.NeighborManager.RecalculateMPRs | internal/olsr/neighbor.go:211-259 | the relays are the sole covers and a complete greedy run for the current tables |
| Neighbors.NeighborManager.GreedyPicks | internal/olsr/neighbor.go:240-256 | the loop terminates with nothing uncovered and each pick greedy at its time; the exit for an empty search is never taken |
| Neighbors.NeighborManager.BuildTwoHopNeighborsMap | internal/olsr/neighbor.go:261-282 | each node to cover is mapped to exactly the willing neighbours with an unexpired link to it |
| Neighbors.NeighborManager.SelectGreedyMPR | internal/olsr/neighbor.go:284-319 | gives a candidate greatest in (newly covered, willingness, degree), and always gives one |
| Neighbors.NeighborManager.AgeOut | internal/olsr/neighbor.go:322-374 | the whole new state; recalculation and one event exactly if a link was newly lost or any entry expired |
| Neighbors.NeighborManager.GetNeighbors | internal/olsr/neighbor.go:377-389 | lists exactly the neighbours whose link is not lost, symmetric or not |
| Neighbors.NeighborManager.GetMPRSelectors | internal/olsr/neighbor.go:416-428 | lists exactly the unexpired selectors, each once |
| Expiry.Prune | internal/olsr/neighbor.go:345-364 | keeps exactly the unexpired entries and tells whether any had expired |
| TimeCodes.EncodeTimeVal | internal/olsr/packet.go:71-92 | the nested search gives the first nearest code |
| TimeCodes.DecodeTimeVal | internal/olsr/packet.go:60-68 | the loop gives 3750000 (16 + a) 10^b nanoseconds |
| TimeCodes.EncodeNearest | internal/olsr/packet.go:71-92 | no code is nearer to the duration, and earlier codes are strictly farther |
| TimeCodes.DecodeMonotone | internal/olsr/packet.go:60-68 | decoding is strictly increasing in exponent, then mantissa |
| TimeCodes.EncodeDecode | internal/olsr/packet.go:60-92 | encoding a decoded code gives that code back |
| TimeCodes.EncodeError | internal/olsr/packet.go:60-92 | between the least and greatest code the relative error is at most 129/191 |
| TimeCodes.EncodeErrorAttained | internal/olsr/packet.go:60-92 | that bound is attained |
| TimeCodes.FitsIff | internal/olsr/packet.go:67 | which codes have a time that fits a 64-bit duration |
| TimeCodes.WrappedRoundTripIff | internal/olsr/packet.go:60-92 | with overflow to the most negative duration, decoding and encoding gives a code back exactly if it fits |
| TimeCodes.SaturatedRoundTripIff | internal/olsr/packet.go:60-92 | with overflow to the greatest duration, for exactly one code more |
| TimeCodes.EncodeFitsIff | internal/olsr/packet.go:71-92 | exactly the 64-bit durations up to 9187500000000000000 ns are encoded by a code that fits |
| Codec.SerializePacket | internal/olsr/packet.go:163-253 | succeeds exactly on packets of IPv4 addresses and known bodies whose sizes fit, with patched size fields, and gives their bytes |
| Codec.SerializeMessage | internal/olsr/packet.go:172-245 | the same for one message, its size patched in afterwards |
| Codec.SerializeHello | internal/olsr/packet.go:255-304 | the same for a HELLO body and each of its link messages |
| Codec.DeserializePacket | internal/olsr/packet.go:392-475 | reads every byte sequence as specified, including errors and panics |
| Codec.NextMessage | internal/olsr/packet.go:411-470 | one turn of the message loop: stops with an error or panic, or reads one message and advances by its declared size |
| Codec.DeserializeHello | internal/olsr/packet.go:477-519 | reads every HELLO body as specified, including errors and panics |
| WireProofs.MessageRoundTrip | internal/olsr/packet.go:172-470 | a well-typed message that can be written reads back as itself, times rounded to the code's grid, and declares its own length |
| WireProofs.PacketRoundTrip | internal/olsr/packet.go:163-475 | so does every packet of such messages |
| WireProofs.NormalIsStable | internal/olsr/packet.go:60-92 | rounding to the grid twice is rounding once |
| WireProofs.ParsesIffTiled | internal/olsr/packet.go:392-475 | a packet parses into messages exactly if they tile bytes 4 to its declared length, each in its own declared bytes |
| WireProofs.PanicsIffStuck | internal/olsr/packet.go:411-470 | parsing panics exactly if messages tile up to one that declares a size below its header, or to a HELLO whose link messages tile up to one that does |
| WireProofs.MessagePanicsIff | internal/olsr/packet.go:477-519 | of all bodies only a HELLO's can panic, exactly if link messages tile it up to one that declares a size below its header |
| WireProofs.SizeZeroPanics | internal/olsr/packet.go:428 | packets of sixteen bytes that panic |
| WireProofs.LinkSizeZeroPanics | internal/olsr/packet.go:497 | HELLO packets of twenty-four bytes that panic |
| WireProofs.LinksReadIffTiled | internal/olsr/packet.go:477-519 | the same two characterizations for the link messages of a HELLO body |
| Layouts.PacketAt | internal/olsr/packet.go:392-410 | length and number of a packet in network order, and when it is refused for its length |
| Layouts.MessageAt | internal/olsr/packet.go:411-470 | each message takes as many bytes as its own second short says |
| Layouts.HeaderAt | internal/olsr/packet.go:417-445 | at which byte each header field of a message is read |
| Layouts.TimeInNumbers | internal/olsr/packet.go:60-68 | which bits of a time code are its mantissa and its power of ten |
| Layouts.Reads1 | internal/olsr/packet.go:477-519 | number 1 is read as a HELLO, with interval, willingness and link messages where they stand |
| Layouts.LinkAt | internal/olsr/packet.go:485-515 | a link message's code and addresses |
| Layouts.Reads2 | internal/olsr/packet.go:521-538 | number 2 is read as a topology message with its number and addresses, and exactly when that fails |
| Layouts.Reads3 | internal/olsr/packet.go:540-551 | number 3 as an interface declaration |
| Layouts.Reads4 | internal/olsr/packet.go:553-572 | number 4 as a network announcement |
| Layouts.Reads108And109 | internal/olsr/packet.go:574-593 | numbers 108 and 109 as a source claim and a confirmation |
| Layouts.ReadsOthers | internal/olsr/packet.go:446-470 | any other number as its bytes, never an error |
| Layouts.UnknownIsSkipped | internal/olsr/packet.go:411-470 | a message of unknown type leaves the rest of its packet as readable as it is |
| Layouts.TopologyPacket | internal/olsr/packet.go:392-538 | what twenty-four bytes with a single topology message are read as |
| Layouts.MessageLayout | internal/olsr/packet.go:172-245 | at which byte each header field of a message is written |
| Layouts.WrittenNumber | internal/olsr/packet.go:25-33 | each kind of message starts with its own number: 1, 2, 3, 4, 108 or 109 |
| Layouts.PacketLayout | internal/olsr/packet.go:163-253 | length, number and messages of a packet as written |
| Layouts.BodyLayout | internal/olsr/packet.go:255-389 | at which byte each field of a body is written |
| Layouts.LinkLayout | internal/olsr/packet.go:255-304 | and of a link message |
| Layouts.AssociationsLayout | internal/olsr/packet.go:340-355 | and of a network announcement |
| Layouts.WritableExactly | internal/olsr/packet.go:163-253 | which messages can be written at all |
| WireProofs.RelayedBytes | cmd/olsrd/daemon.go:734-743 | a relayed message that could be written before can be written, with the same bytes but for the two hop counts |
| WireProofs.RelayingIsFaithfulIff | cmd/olsrd/daemon.go:734-743 | whatever an overflowing duration becomes, parsing, relaying and writing again any number of hops changes only those two bytes if and only if the message's time codes survive decoding and encoding |
| WireProofs.RelayingIsFaithful | cmd/olsrd/daemon.go:734-743 | which they do, over any number of hops and on all hardware, if they fit a 64-bit duration |
| WireProofs.RelayingKeepsFittingOnly | internal/olsr/packet.go:60-92 | and, where an overflow gives the most negative duration, only then |
| Duplicates.AgingTransparent | internal/olsr/topology.go:186-196 | in any run with a monotone clock, leaving out all ageing changes no answer |
| Duplicates.NewAnswersApart | internal/olsr/topology.go:60-79 | two answers "new" for one message are at least its recorded validity apart |
| Duplicates.RememberedIff | internal/olsr/topology.go:60-79 | a message answered as new is a later duplicate exactly while its validity lasts, which is never if the validity is not positive |
| Topology.AcceptsExactly | internal/olsr/topology.go:109-115 | the number rule takes what is newer or the same, and beyond that exactly stale numbers more than half the range above |
| Topology.TcExactly | internal/olsr/topology.go:92-116 | what a topology message does to one tuple: entered or replaced until its time unless the stored number is greater by at most 32768, else left alone |
| Topology.TupleLasts | internal/olsr/topology.go:174-184 | a tuple is gone after the first ageing past its time and not before |
| Topology.TopologyManager.IsDuplicate | internal/olsr/topology.go:60-79 | answers whether an unexpired entry exists, and records the message exactly if not |
| Topology.TopologyManager.ProcessTC | internal/olsr/topology.go:82-124 | each listed tuple is replaced exactly if new or its number accepted, no other tuple changes, and one event is published exactly if one was replaced |
| Topology.AgedExactly | internal/olsr/topology.go:166-184 | ageing keeps exactly the tuples that are not expired, unchanged |
| Topology.TopologyManager.AgeOut | internal/olsr/topology.go:166-206 | both tables lose exactly their expired entries; an event exactly if a tuple was removed |
| Topology.TopologyManager.ProcessMID | internal/olsr/topology.go:127-151 | the primary's old aliases are forgotten and its new ones entered, in both tables |
| Topology.TopologyManager.GetPrimaryAddress | internal/olsr/topology.go:155-163 | the primary an alias resolves to, and any other address itself |
| Aliases.ResolvedByLastWord | internal/olsr/topology.go:127-163 | after any run of declarations an alias resolves to a primary exactly if that primary listed it and nothing later listed or withdrew it |
| Aliases.RunsAreSound | internal/olsr/topology.go:127-163 | in every run an alias resolves only to a primary whose latest list has it |
| Aliases.DeclareConsistentIff | internal/olsr/topology.go:127-151 | a declaration keeps the two tables inverse to each other exactly if no other primary lists one of its aliases |
| Aliases.TakeoverLosesAlias | internal/olsr/topology.go:127-151 | a run in which a declared alias ends up resolving to nobody |
| Routers.RunKeepsOwnFree | cmd/olsrd/daemon.go:712-714 | in every state of every run of messages and ageing, nothing this router originated is stored as a neighbour's or a remote router's |
| Routers.TopologyFiled | cmd/olsrd/daemon.go:755-760 | a new message of type 2 files a tuple for each destination it lists with a number at least the stored one, until now + vtime |
| Routers.OthersFiled | cmd/olsrd/daemon.go:720-733 | new messages of types 1, 3, 108 and 109 are filed in their own table, until now + vtime, and touch no other |
| Routers.RoutesUseListedLinks | internal/olsr/neighbor.go:377-389 | every route calculated from such tables leaves over a neighbour whose link is not lost |
| Routers.ListedIsOwnHop | internal/olsr/spf.go:196-203 | every neighbour whose link is not lost is routed to directly, at metric one, whatever else is known |
| Routers.RoutesSymmetricIff | internal/olsr/spf.go:196-203 | all routes leave over symmetric links exactly if every listed neighbour's link is symmetric |
| Routers.AsymmetricIsRouted | internal/olsr/spf.go:196-203 | a run of one HELLO after which every calculation routes over an asymmetric link |
| Routers.RunIsTraced | internal/olsr/neighbor.go:101-128 | in every run links are filed under addresses HELLOs came from and neighbours under identities that originated them |
| Routers.NothingRouted | internal/olsr/neighbor.go:377-389 | so if no HELLO's sender is any HELLO's originator, no neighbour is ever listed and every calculated table is empty |
| Relay.HandleRelays | cmd/olsrd/daemon.go:734-743 | a relayed copy has the same body and header but for the hop counts, whose sum is kept while the hop count does not wrap |
| Relay.ForwardsInNumbers | cmd/olsrd/daemon.go:786-800 | which messages are relayed, with types and hops as numbers |
| Relay.HandledOnce | cmd/olsrd/daemon.go:712-717 | own messages and those with an unexpired entry are dropped, all others recorded until now + vtime |
| Relay.HandleIsStep | cmd/olsrd/daemon.go:711-745 | the view that decides about relaying changes as the whole router's step says |
| Relay.AgedIsStep | cmd/olsrd/daemon.go:422-445 | and so it does by ageing |
| Daemon.Daemon.ProcessReceivedData | cmd/olsrd/daemon.go:703-746 | handles the messages of every datagram in order: the state of the link, neighbour, two-hop, relay, selector, topology, alias, duplicate, claim and confirmation tables after each of them, and exactly the packets broadcast |
| Daemon.Daemon.PerformAging | cmd/olsrd/daemon.go:422-445 | one ageing pass over all those tables |
| Daemon.Daemon.ShouldForwardMessage | cmd/olsrd/daemon.go:786-800 | relays exactly messages with hops left, other than HELLO and confirmations, that are source claims or come from a selector |
| Daemon.Daemon.SendHello | cmd/olsrd/daemon.go:447-522 | one message, never to be relayed, that lists exactly the symmetric, asymmetric and lost links under their codes; numbers advance modulo 65536 |
| Daemon.Daemon.SendTC | cmd/olsrd/daemon.go:524-567 | nothing without unexpired selectors, else one message that lists exactly those, to be flooded 255 hops |
| Daemon.DescribedInNumbers | cmd/olsrd/daemon.go:478-495 | under which link and neighbour types a HELLO lists symmetric, asymmetric and lost links, and that it lists nothing else |
| Daemon.OwnHelloHeard | cmd/olsrd/daemon.go:478-495 | a receiver counts itself as heard by such a HELLO exactly if the sender has a symmetric or asymmetric link filed under the receiver's identity, and takes for two-hop nodes exactly the addresses of symmetric links |
| Daemon.UnknownStaysAlone | internal/olsr/neighbor.go:160-174 | a router whose identity is no sender's link address never has a symmetric neighbour, a two-hop node or a relay |
| Daemon.NobodyIsSelected | cmd/olsrd/daemon.go:478-495 | over every run in which all HELLOs are built that way, no router ever has a selector |
| Daemon.OnlyClaimsRelayed | cmd/olsrd/daemon.go:786-800 | then exactly source claims with hops left are relayed |
| Flood.TransmitInv | cmd/olsrd/daemon.go:711-745 | each transmission, whoever relays it, keeps: copies differ only in hop counts of constant sum, one transmission per router, hearers have received |
| Flood.TransmitRule | cmd/olsrd/daemon.go:786-800 | if it is relayed by the rule, each router's first copy decided whether it relays |
| Flood.FloodReachesAll | cmd/olsrd/daemon.go:786-800 | on a connected symmetric graph with an initial TTL of at least the number of routers, when nothing is left to send every router but the origin has received a source claim, and any other message if relays cover |
| Flood.WithoutRelaysReachedIff | cmd/olsrd/daemon.go:786-800 | where nobody is anybody's relay, everyone was reached exactly if it was a source claim or everyone hears the origin |
| Flood.FloodBounded | cmd/olsrd/daemon.go:711-745 | a flood makes at most one transmission per router |
| Network.RunRefines | cmd/olsrd/daemon.go:703-800 | every state of a network of routers, with clock, ageing and other traffic, corresponds to a state of the abstract flood |
| Network.FloodingReachesEveryone | cmd/olsrd/daemon.go:703-800 | so once no copy is left to send, every router has recorded the message as received: a source claim whatever the selector tables say, any other message if relays cover and the tables mirror them during the run |
| Network.WithoutSelectorsReachedIff | cmd/olsrd/daemon.go:703-800 | if no router has a selector during the run, everyone was reached exactly if it was a source claim or everyone hears the origin |
| Network.LineStopsShort | cmd/olsrd/daemon.go:786-800 | three routers in a line without selectors: runs for a topology message of TTL 255 exist, and all that are over left the far router without it |
| Network.FloodingIsBounded | cmd/olsrd/daemon.go:711-745 | within the validity window and whatever the selector tables say, each router transmits at most once, and TTL plus hop count is the same on every copy |
| Convergence.ChosenRelaysCover | internal/olsr/neighbor.go:211-319 | if every router's tables know its surroundings, the relays chosen by recalculation cover, as flooding requires |
| Convergence.SelectorsStayEmpty | cmd/olsrd/daemon.go:478-495 | in a network whose HELLOs are all built by such daemons, selector tables stay empty throughout |
| Convergence.DaemonsReachedIff | cmd/olsrd/daemon.go:478-495 | so there a flood that is over has reached everyone exactly if it was a source claim or everyone hears the origin |
| Molsr.MOLSRManager.ProcessSourceClaim | internal/olsr/molsr.go:74-102 | the claim is recorded or renewed and published, and no other claim changes |
| Molsr.MOLSRManager.ProcessConfirmParent | internal/olsr/molsr.go:105-143 | a confirmation naming this router is recorded or renewed and published, any other is ignored, and no other entry changes |
| Molsr.MOLSRManager.AgeOut | internal/olsr/molsr.go:238-284 | claims and confirmations become exactly the unexpired ones, with no empty inner table left; an event exactly if one was removed |
| Molsr.AgedExactly | internal/olsr/molsr.go:256-276 | a confirmation survives ageing exactly if it is not expired, unchanged |
| Molsr.MOLSRManager.BuildNewMFC | internal/olsr/molsr.go:301-345 | an entry for exactly the flows with a confirmed child and a route to the source, whose outgoing list has no duplicates and is the reachable children's interfaces without the incoming one |
| Molsr.MfcUnique | internal/olsr/molsr.go:301-345 | that determines the table up to the order of the outgoing lists |
| Molsr.EntryExactly | internal/olsr/molsr.go:301-345 | flow by flow: when there is an entry, its incoming interface, and which children's interfaces are outgoing, never the incoming one |
| Molsr.ConfirmationLasts | internal/olsr/molsr.go:105-276 | a confirmation is gone after the first ageing past now + vtime and not before |
| Molsr.ClaimLasts | internal/olsr/molsr.go:74-254 | and so is a claim |
| Molsr.ClaimsAgedExactly | internal/olsr/molsr.go:245-254 | ageing keeps exactly the unexpired claims, unchanged |
| Molsr.MOLSRManager.RecalculateMroutes | internal/olsr/molsr.go:288-299 | without an interface lookup nothing happens; otherwise the active table becomes the new one and exactly the difference is published |
| Molsr.MfcReplayExact | internal/olsr/molsr.go:347-396 | over any number of recalculations, replaying all events from empty gives the active table exactly |
| Mroute.LinuxMulticastRouter.RegisterVif | internal/mroute/mroute_linux.go:125-158 | keeps the map injective below the counter, changes no mapping, and succeeds exactly for known interfaces or a free number the kernel accepts |
| Mroute.LinuxMulticastRouter.AddMulticastRoute | internal/mroute/mroute_linux.go:160-205 | on success the kernel entry decodes through the map to exactly the incoming interface and the outgoing set; on failure no entry changes; which registrations happen and when it succeeds |
| Mroute.LinuxMulticastRouter.DeleteMulticastRoute | internal/mroute/mroute_linux.go:207-241 | withdraws exactly the one entry, and asks nothing of the kernel for an unregistered interface |
| Mroute.LinuxMulticastRouter.Stop | internal/mroute/mroute_linux.go:108-123 | forgets all interface numbers, together with what the kernel held |
| Mroute.DecodesUniquely | internal/mroute/mroute_linux.go:174-195 | a kernel entry decodes to one incoming interface and one outgoing set only |
| Mroute.DecodesLater | internal/mroute/mroute_linux.go:125-158 | entries keep their decoding when more interfaces are registered |
| Mroute.AllocationStaysInjective | internal/mroute/mroute_linux.go:125-158 | across any successes and failures the map stays injective below a counter of at most 32 |
| Mroute.FailuresExhaust | internal/mroute/mroute_linux.go:134-140 | after 32 failed attempts no interface can be registered although none is |
| Mroute.TryExactly | internal/mroute/mroute_linux.go:125-158 | case by case: which number an interface gets, and when a number is used up for nothing |
| Mroute.EntryInNumbers | internal/mroute/mroute_linux.go:174-195 | thirty-two TTLs, one at the outgoing interfaces' numbers and zero elsewhere |
| Mroute.AllAccepted | internal/mroute/mroute_linux.go:125-158 | accepted interfaces are numbered in the order in which they come |
| LoopPrevention.NFTablesManager.ApplyRules | internal/mroute/loopprevention_linux.go:95-128 | the chain becomes one accept and one drop rule for each IPv4 route and interface, routes in some order |
| LoopPrevention.NFTablesManager.OnMulticastRouteAdd | internal/mroute/loopprevention_linux.go:74-85 | fails without a hardware address, else records it in lower case and rewrites the chain |
| LoopPrevention.NFQueueManager.HookFunc | internal/mroute/loopprevention_linux.go:240-285 | the verdict on every payload in bytes: dropped exactly if it is IPv4, its source and destination in network order are a flow with a route, and its sender is not known to be the expected one |
| LoopPrevention.ParseFormat | internal/mroute/loopprevention_linux.go:287-296 | reading a formatted hardware address gives the address back |
| LoopPrevention.WrittenAddress | internal/mroute/loopprevention_linux.go:287-296 | bytes are written in order, as two lower-case digits each, with colons |
| LoopPrevention.MulticastIsPrefix | internal/mroute/loopprevention_linux.go:166-170 | the groups that are queued are those of 224.0.0.0/4 |
| LoopPrevention.RoutesByLastWord | internal/mroute/loopprevention_linux.go:217-238 | after any run of events a flow has a route exactly if the last event about it, failed lookups aside, added it, and with that event's text in lower case |
| LoopPrevention.ListDecides | internal/mroute/loopprevention_linux.go:95-128 | the rule list, in any order of routes, drops exactly packets of a listed IPv4 flow on a configured interface from another sender |
| LoopPrevention.ModesAgreeIff | internal/mroute/loopprevention_linux.go:95-285 | both modes give the same verdict on all packets of a configured interface exactly if each IPv4 flow with a route has a multicast group and a canonical address text |
| LoopPrevention.LowerIsCanonical | internal/mroute/loopprevention_linux.go:81 | a text without capitals is canonical |
| LoopPrevention.MulticastAlwaysAgrees | internal/mroute/loopprevention_linux.go:74-285 | after any run of route events both modes agree on every packet to 224.0.0.0/4, with or without a hardware address |
| LoopPrevention.ModesAgreeAfterIff | internal/mroute/loopprevention_linux.go:166-170 | and on all packets of a configured interface exactly if every routed IPv4 flow's group is multicast, because only packets to multicast groups are queued |
| LoopPrevention.UnicastGroupDiffers | internal/mroute/loopprevention_linux.go:166-170 | with a route for a flow to 10.0.0.5, a packet from another sender is dropped in one mode and passed in the other |
| RateLimit.APIServer.RateLimit | internal/api/server.go:173-200 | admits exactly when the refilled, capped bucket holds a token, and changes this client's bucket only |
| RateLimit.NextRequest | internal/api/server.go:173-200 | the one-call rule is the step of the run on which the bounds are proved |
| RateLimit.AdmittedAtMost | internal/api/server.go:173-200 | the requests admitted in any window of length T are at most burst + rate T |
| RateLimit.AdmittedExactly | internal/api/server.go:173-200 | a request is admitted exactly if one more would keep that bound in every window that ends with it |

## Left out

- The HNA manager, the snapshot, configuration, HTTP, JWT, metrics and logging code, and
  the Zebra client: thin wrappers, one-way encoders or easy tables. Route calculation takes a list of
  (gateway, prefix) entries instead.
- The local join, add and delete calls of the multicast manager, who first sent a source claim, and the
  daemon's dispatch of HNA messages: they decide nothing about relaying.
- `sendHNA`: built like the topology message.
- Locks: each method is one atomic step.
- The event bus: published events are a sequence, and the replay results assume that none is lost,
  although a slow subscriber loses events (`internal/eventbus/bus.go:110-118`).
- The clock: each method takes one `now`; where a result needs it the clock is monotone.
- Sockets, netlink, netfilter commands, the ARP table and the kernel: inputs, or an
  oracle that may refuse a call. A netfilter command that fails is not modelled.
- Addresses as text: an address is an IPv4 or IPv6 number, and a (source, group) pair is
  a pair rather than the text "src:grp", which for IPv6 addresses could not be split.
- How netfilter reads a hardware address is modelled as two hexadecimal digits for each
  byte, separated by colons, in either case; a packet's hardware address, where it has one, is not empty.
- Error values are reduced to success, failure and, for the parser, panic.
- The `index` fields of queue items, which nothing reads.
- TimeCodes.DecodeTimeVal: gives the exact time, as an integer in nanoseconds; floating-point rounding is not
  modelled, and a time that does not fit 64 bits is treated by the results on `Fits` only.
- Standalone.StandaloneAgreesIff: the kernel refuses an add only for an occupied place, and prefixes are told
  apart as written, masked or not.
- TimeCodes.EncodeDecode: holds of the code as written for codes that fit; see `WrappedRoundTripIff`.
- TimeCodes.EncodeTimeVal: compares exact integers where the code compares floating-point seconds.
- RateLimit.APIServer.RateLimit: tokens and times are exact reals.
- Daemon.Daemon.ProcessReceivedData: a broadcast is one entry of a log, whatever the number of interfaces, and
  a header's length field on a relayed packet is not looked at because the serializer overwrites it.
- Network.FloodingReachesEveryone: one message at a time is followed, a transmission reaches all
  neighbours at once, the radio graph does not change during the flood, and the message is taken as read, with
  its times on the code's grid.
- Topology.TopologyManager.ProcessTC: publishing is a count of events.
