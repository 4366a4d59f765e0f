# A verified model of the PWOSPF router

The repository is a small IP router with a link-state routing protocol (PWOSPF). This project models
its three demanding parts in Dafny and proves what they are meant to do, or exactly when they do it.

* **The link-state engine** (`pwospf_stub/sr_pwospf.c`). `Topology` is the value of a router's graph
  and of the update handler; `Convergence` proves the graph invariant over every run and that updates
  from different routers commute; `ShortestPaths` and `Distances` hold the theory of the search;
  `SubnetGraphs` is the heap graph with the search on it; `LsuPackets` is the update packet, written
  and read back; `RouteBuilding` and `RouteTables` are the routing table; `PwospfRouters` is one
  router as an object whose handlers are proved against all of these.
* **The network** (`Flooding`, `FloodOutcome`, `EdgeHistory`, `Senders`, `Agreement`). Many routers over
  point-to-point links, any number of them between the same two routers, with update copies in flight, as
  a step relation: originate, deliver, lose. The steps use the same `Topology.Receive` that the heap
  handler is proved to compute. `Hellos` and `Senders` say what each router advertises as hellos come in.
* **The streaming hash** (`pwospf_stub/sha1.c`). `Sha1Spec` is FIPS PUB 180-1, sections 4 to 7, as a
  one-shot function; `Sha1` is the mutable context, proved equal to it for every chunking.
* **The forwarding plane** (`pwospf_stub/sr_router.c`). `Checksum` relates both checksum routines to
  RFC 1071; `ArpCaches` is the ARP cache; `ForwardingRules` is the decision about one packet;
  `ReleaseWalks` is the walk an ARP reply starts over the waiting packets; `PacketConservation` is the
  accounting over whole runs; `PacketQueues` and `ForwardingPlane` are the linked list and the handlers
  in place; `EchoReplies` is the answer to a ping.

`dafny verify dfyconfig.toml` checks everything.

## How to read the model

Addresses, masks and router ids are numbers below 2^32 read in network byte order; packets are
sequences or arrays of octets. A graph is a sequence indexed by vertex id, so the C list (newest vertex
first) is that sequence read backwards. Each class ties its fields to such values in `Valid`.

Four modules say what the operations amount to without naming the functions the handlers are proved
against, in octets, bits, seconds, list positions and published constants: `UpdateExactly` (one update, one
step of the network), `LsuPacketExactly` (every octet of an update), `ForwardingExactly` (one packet) and
`ReleaseExactly` (the walk an ARP reply starts). Shorter ones of that kind stand beside their definitions.

Where the code departs from what its documentation promises, the model follows the code, and the
statement that fails has an exact condition:

* The forwarding loop sits inside the loop over advertisements. An accepted update with k
  advertisements goes out k times on every other interface, and not at all for k = 0
  (`LsuPackets.ForwardsOnEach`). The time-to-live is lowered and never looked at; only sequence numbers
  stop a flood (`FloodOutcome.FloodsDieOut`).
* Sequence numbers are 16 bits on the wire. The update after number 65535 carries 0, and every router
  that already knows its origin drops it (`Flooding.WrappedUpdateIsDropped`); a router that has recorded
  number 65535 keeps that record for ever (`Flooding.RecordAtTopStays`). The other network results
  therefore assume that no router has originated 65536 updates.
* Nothing is ever taken out of a topology (`EdgeHistory.NothingIsWithdrawn`), though updates do change:
  the first round of every sender goes out before any hello has been handled, names nobody, and
  advertises 0/0 for each interface (`Senders.FirstRoundNamesNobody`). All a later update ever takes
  back is that subnet 0, from the moment somebody has been heard on eth0 (`Senders.ZeroSubnetExactly`);
  it stays with exactly those routers that have taken in an earlier update
  (`Agreement.ZeroSubnetHeldExactly`). On everything else routers agree once the network is at rest
  (`Agreement.SenderNetworksAgree`).
* Updates of two routers commute unless one that has something to say carries sequence number 0 and the
  other mentions its unknown origin, or one comes from a new router 0 and the other has a "no router"
  entry (`Convergence.Conflict`, with the details); in every such case the two orders do give different
  topologies (`Convergence.ReceiveCommutesExactly`).
* A router that is not a neighbour gets the next hop of neighbour record 0. A new route leads to its
  owner exactly when the owner is a neighbour, and of several owners of one subnet the one learned last
  counts (`RouteBuilding.TableGoesToFirstOwners`).
* The release walk reads the next pointer before it routes a packet, and routing may queue the packet
  again at the tail. The walk ends exactly when at most one matching packet would match again after being
  queued again (`ReleaseWalks.WalkEndsExactly`). It need not: let two packets wait for 10.0.0.2, and let
  the reply come from the card 00:50:56:00:00:01. A hardware address that starts with octet 0 is cached
  but never counts as found, and the walk goes round for ever (`ReleaseWalks.WalkNeedNotEnd`).
* The ARP cache is promised a timeout of about 15 seconds. An ARP packet restarts the clock of every
  expired entry its lookup passes, so an address that has expired is answered for again exactly when its
  first expired entry lies in front of the entry that ends the lookup
  (`ArpCaches.ExpiredComesBackExactly`, with `ArpCaches.ExpiryIsNotStrict` as the smallest case). A probe,
  an ARP packet with sender address 0, brings back every visible expired entry
  (`ArpCaches.ProbeRestartsAll`), and is cached itself (`ArpCaches.ProbeIsCached`). For any other
  sender, the address learned first shadows the one just heard (`ArpCaches.FirstLearnedWins`). An
  entry for address 0 hides every entry behind it (`ArpCaches.NewAddressIsVisibleExactly`).
* The summing routine used for ICMP skips the last octet of an odd message, so the two routines agree,
  and a reply's checksum verifies, exactly when the length is even or that octet is 0
  (`Checksum.ChecksumsAgreeExactly`, `EchoReplies.EchoVerifiesExactly`). It is right on every buffer of n words
  exactly when n is at most 65537 (`Checksum.WordBoundExactly`); no frame is that long, since the link
  layer refuses more than 10000 octets (`pwospf_stub/sr_vns_comm.c`).
* Two interfaces on one subnet make the start-up code add a vertex twice; the graph invariant holds at
  start-up exactly when the subnets are distinct (`Convergence.InitInvExactly`).
* The router id is the smallest interface address as a little-endian machine compares addresses, which is
  not their numeric order (`PwospfRouters.ChosenIdIsSmallest`).
* The multicast address used for updates is a global that stays zero (the start-up code fills a local of the same
  name), so updates leave with an all-zero destination hardware address.

## Model

| member | source | states |
|---|---|---|
| Topology.FindIdSpec | pwospf_stub/sr_pwospf.c:262-297 | a lookup answers with the newest vertex of that key, and with -1 only when there is none |
| Topology.HasEdgeIsLinked | pwospf_stub/sr_pwospf.c:310-330 | the nested edge search succeeds if and only if the source vertex really has an edge to the destination |
| Topology.EnsureVertexRefines | pwospf_stub/sr_pwospf.c:458-472 | adding a missing vertex is insertion of its key into the set of known vertices, and keeps ids dense and keys distinct |
| Topology.EnsureEdgeRefines | pwospf_stub/sr_pwospf.c:477-501 | checking for and then adding an edge is set insertion: no edge is ever duplicated |
| Topology.ReceiveRefines | pwospf_stub/sr_pwospf.c:436-503 | the whole handler on the id-numbered lists is the simple set operation on the abstract topology, with the same accept decision |
| Topology.SameTopologyExactly | pwospf_stub/sr_pwospf.c:354-370 | two list graphs have the same abstract topology if and only if one is a renumbering of the other that keeps keys, masks, sequence numbers and all edges |
| Convergence.ReceiveKeepsInv | pwospf_stub/sr_pwospf.c:458-503 | every update keeps the graph invariant: dense ids, no duplicate edge, unique router and (router, subnet) keys, symmetric router links, one in-edge and no out-edge per subnet |
| Convergence.InitInvExactly | pwospf_stub/sr_pwospf.c:225-244 | start-up establishes that invariant if and only if the interface subnets are pairwise distinct |
| Convergence.InvOverRuns | pwospf_stub/sr_pwospf.c:225-244 | the invariant holds after start-up and any sequence of updates |
| Convergence.ReceiveCommutesExactly | pwospf_stub/sr_pwospf.c:436-503 | updates of two different origins give the same topology in either order if and only if neither makes the other one, numbered 0, come too late, nor brings in a router 0 for the other to link to |
| Convergence.ReceiveKeepsOtherRecords | pwospf_stub/sr_pwospf.c:443-464 | an update changes the recorded number of its own origin, to its own number, only if accepted, and of no other router |
| UpdateExactly.ReceiveExactly | pwospf_stub/sr_pwospf.c:436-503 | an update changes nothing if it is the router's own or not newer than the record; else the result, vertex by vertex and edge by edge: the record is set, and what is new are the vertices and edges the advertisements speak of, a subnet with the mask first advertised for it |
| ShortestPaths.CappedDistanceIsDefined | pwospf_stub/sr_pwospf.c:150-187 | any two vertices have exactly one value min(7, weight of a lightest walk), defined from walks alone |
| ShortestPaths.InitKeeps | pwospf_stub/sr_pwospf.c:176-187 | the initial labels satisfy the search invariant |
| ShortestPaths.VisitKeeps | pwospf_stub/sr_pwospf.c:160-165 | visiting a vertex of least label keeps the search invariant and the order of visits non-decreasing |
| ShortestPaths.RelaxKeeps | pwospf_stub/sr_pwospf.c:166-171 | relaxing one edge keeps the search invariant: labels are lengths of real walks, parents are real edges |
| ShortestPaths.NoWalkIsLighter | pwospf_stub/sr_pwospf.c:150-175 | once all edges are relaxed, no walk from the source is lighter than the label of its end |
| ShortestPaths.AllVisitedIsExact | pwospf_stub/sr_pwospf.c:150-175 | at the end every label is min(7, true distance), and the parent is -1 exactly for the source and for vertices at 7 |
| ShortestPaths.LabelsExactly | pwospf_stub/sr_pwospf.c:150-187 | a label is the weight of a lightest walk where that is below 7, and 7 otherwise; the parent is -1 exactly for the source and where no walk lighter than 7 leads |
| ShortestPaths.ParentsLeadToSource | pwospf_stub/sr_pwospf.c:198-205 | from a vertex with label d below 7, following parents reaches the source in exactly d steps, each along a real edge that lowers the label by 1 |
| ShortestPaths.AllVisited | pwospf_stub/sr_pwospf.c:157-174 | a run of n distinct visits has visited each of the n vertices |
| SubnetGraphs.SelectionIsDefined | pwospf_stub/sr_pwospf.c:157-174 | whenever the search asks for a minimum, an unvisited vertex with label below 8 exists, so the uninitialised result is never used |
| Distances.BasicIsSound | pwospf_stub/sr_pwospf.c:298-309 | every graph the router builds meets the precondition of the search, with unit weights |
| Distances.SameTopologySameDistance | pwospf_stub/sr_pwospf.c:150-187 | two graphs of one topology get equal distances for equal vertices, however they are numbered |
| Distances.UpdateOrderKeepsDistances | pwospf_stub/sr_pwospf.c:436-528 | the distances computed after two updates of different origins that are in no conflict do not depend on their order of arrival |
| Distances.LeafParentIsItsRouter | pwospf_stub/sr_pwospf.c:466-503 | after the search, the parent of a reached subnet vertex is the router that advertised it |
| Distances.LeafReachedExactly | pwospf_stub/sr_pwospf.c:150-205 | a subnet is reached if and only if its router is less than 6 away; it is then one step further |
| Distances.ReceiveKeepsKeys | pwospf_stub/sr_pwospf.c:354-370 | vertices never change their identity or their id |
| SubnetGraphs.SubnetGraph.AddVertex | pwospf_stub/sr_pwospf.c:354-370 | the vertex is prepended with the next id; ids stay descending along the list |
| SubnetGraphs.SubnetGraph.AddEdge | pwospf_stub/sr_pwospf.c:298-309 | the edge is prepended to the adjacency list of its source and of no other vertex |
| SubnetGraphs.SubnetGraph.GetRouterById | pwospf_stub/sr_pwospf.c:262-275 | returns the node of the router with that id, or null exactly when there is none |
| SubnetGraphs.SubnetGraph.GetNodeForSubnet | pwospf_stub/sr_pwospf.c:283-297 | returns the node of that subnet and router, or null exactly when there is none |
| SubnetGraphs.SubnetGraph.GetVertexFromEdge | pwospf_stub/sr_pwospf.c:245-261 | returns the node with that id, or null exactly when the id is not in use |
| SubnetGraphs.SubnetGraph.CheckIfEdgeExists | pwospf_stub/sr_pwospf.c:310-330 | true if and only if the graph has an edge between the two ids |
| SubnetGraphs.SubnetGraph.Gate | pwospf_stub/sr_pwospf.c:436-464 | an update is let through if and only if it is not the router's own and is newer than the recorded one; its number is then recorded, otherwise nothing changes |
| SubnetGraphs.SubnetGraph.ApplyLeaf | pwospf_stub/sr_pwospf.c:469-480 | in place, the effect of one advertisement on subnets |
| SubnetGraphs.SubnetGraph.ApplyLink | pwospf_stub/sr_pwospf.c:482-503 | in place, the effect of one advertisement on router links, both directions |
| SubnetGraphs.SubnetGraph.InitializeDijkstras | pwospf_stub/sr_pwospf.c:176-187 | all labels become (7, -1, unvisited) except distance 0 at the source |
| SubnetGraphs.SubnetGraph.GetMinVertex | pwospf_stub/sr_pwospf.c:206-223 | returns an unvisited vertex of least label |
| SubnetGraphs.SubnetGraph.ComputeValues | pwospf_stub/sr_pwospf.c:198-205 | one relaxation step, on the label of one vertex only |
| SubnetGraphs.SubnetGraph.Dijkstra | pwospf_stub/sr_pwospf.c:150-175 | ends with exact capped distances and parents for every vertex, having visited each vertex once in non-decreasing order of distance |
| RouteTables.RouteTable.AddEntry | pwospf_stub/sr_rt.c:87-123 | one new entry at the end of the list; all earlier entries unchanged |
| RouteTables.RouteTable.Lookup | pwospf_stub/sr_router.c:476-508 | returns the first matching entry, or null exactly when none matches |
| RouteTables.RouteTable.DefaultGateway | pwospf_stub/sr_router.c:512-528 | returns the first entry with mask 0 and a gateway, or null exactly when there is none |
| RouteTables.RouteTable.IsGateway | pwospf_stub/sr_router.c:533-547 | true if and only if some entry has that gateway |
| RouteTables.RouteTable.FindDest | pwospf_stub/sr_pwospf.c:1057-1065 | true if and only if some entry has that destination |
| RouteTables.FirstMatchIsFirst | pwospf_stub/sr_router.c:476-508 | the position found matches and no earlier one does |
| RouteTables.MatchesExactly | pwospf_stub/sr_router.c:476-508 | an entry matches if and only if its mask is not 0 and the address agrees with its destination on each bit of the mask |
| RouteTables.AndExactly | pwospf_stub/sr_router.c:476-508 | bitwise and, bit by bit |
| RouteTables.ContiguousExactly | pwospf_stub/sr_router.c:476-508 | a mask is contiguous if and only if every bit to the left of a set bit is set |
| RouteTables.NoLongerExactly | pwospf_stub/sr_router.c:476-508 | a mask is no longer than another if and only if the other has all its bits |
| RouteTables.FirstMatchIsLongestExactly | pwospf_stub/sr_router.c:476-508 | with contiguous masks, first match is the longest match of RFC 1812, section 5.2.4.3, for every ordering of the table, if and only if no prefix strictly contains another |
| RouteTables.UniqueMatch | pwospf_stub/sr_router.c:476-508 | on disjoint prefixes at most one entry matches an address |
| RouteTables.OrderDoesNotMatter | pwospf_stub/sr_router.c:476-508 | on disjoint prefixes every ordering of the table gives the same route |
| RouteBuilding.BuildKeepsPrefix | pwospf_stub/sr_pwospf.c:1035-1081 | the old table is a prefix of the new one |
| RouteBuilding.BuildCovers | pwospf_stub/sr_pwospf.c:1035-1081 | every reached subnet has an entry afterwards; `RouteBuilding.BuildServes` says that reached means having a parent |
| RouteBuilding.BuildAddsFresh | pwospf_stub/sr_pwospf.c:1057-1075 | no added destination was there before or is added twice, and each added entry is the route of a reached subnet |
| RouteBuilding.BuildTwice | pwospf_stub/sr_pwospf.c:1035-1081 | a second build on the same graph adds nothing, even if neighbours changed meanwhile |
| RouteBuilding.NeverAddedTwice | pwospf_stub/sr_pwospf.c:1035-1081 | over any sequence of builds no destination is added twice and nothing is removed |
| RouteBuilding.RouteGoesToOwner | pwospf_stub/sr_pwospf.c:1049-1055 | a reached vertex's route carries the address and interface of its own router's record if and only if that router is a live neighbour; otherwise those of record 0 |
| RouteBuilding.TableGoesToFirstOwners | pwospf_stub/sr_pwospf.c:1035-1081 | each new table entry is the one of the first reached vertex, in list order, of a subnet the table did not have, with the gateway of that vertex's router as above; and each such vertex has its entry |
| RouteBuilding.BuildServes | pwospf_stub/sr_pwospf.c:1035-1081 | after a search, the new table is the old one followed by exactly one route to each subnet with a parent label that had none, with the mask of the newest vertex of that subnet, through the first live record of that vertex's own router, or record 0 |
| PwospfRouters.PwospfRouter.TableServed | pwospf_stub/sr_pwospf.c:526-534 | the same of the routing table, graph and labels that the handler leaves after an accepted update |
| LsuPackets.NeighbourFromExactly | pwospf_stub/sr_pwospf.c:1020-1034 | the search finds a live record of that router whenever there is one, and answers 0 otherwise |
| LsuPackets.OnlyRecordZeroIsEth0 | pwospf_stub/sr_pwospf.c:797-803 | the test on the fourth character of an interface name holds for record 0 and no other |
| LsuPackets.LengthMatchesExactly | pwospf_stub/sr_pwospf.c:711-725 | the packet built is as long as its advertisement count says if and only if every neighbour record is alive |
| LsuPackets.LsuRoundTrip | pwospf_stub/sr_pwospf.c:722-813 | the handler reads from the octets the sender wrote exactly the origin, the sequence number modulo 65536, and the list of advertisements |
| LsuPacketExactly.LsuOctets | pwospf_stub/sr_pwospf.c:726-826 | the update on the wire at fixed octets: source address of the interface, protocol 89, from the interface to 224.0.0.5 with time-to-live 64 and a header checksum that verifies, lengths that fit the packet, OSPF version 2 type 4, origin, number, count, and as many advertisements as there are live records |
| LsuPacketExactly.DecodedOctets | pwospf_stub/sr_pwospf.c:421-434 | the octets the handler reads origin, number and each advertisement from |
| LsuPacketExactly.AdvertForExactly | pwospf_stub/sr_pwospf.c:786-810 | for any records, what is said of an interface: subnet and mask with the router of the first live record heard on it; 0/0 instead when that is no router and the first live record without one is called eth0 |
| LsuPackets.SameUpdate | pwospf_stub/sr_pwospf.c:421-433 | source address and time-to-live do not take part in decoding |
| LsuPackets.ForwardsCarry | pwospf_stub/sr_pwospf.c:466-523 | every forwarded copy decodes to the update received, and there are as many as advertisements times other interfaces |
| LsuPackets.ForwardsOnEach | pwospf_stub/sr_pwospf.c:466-523 | an accepted update with k advertisements is sent exactly k times on each other interface and never back |
| LsuPacketExactly.PassesExactly | pwospf_stub/sr_pwospf.c:504-523 | the copies are exactly those of passes 1 to k on each other interface: the source address of that interface, octet 61 lowered by the number of the pass, all else as received |
| PwospfRouters.ChosenIdIsSmallest | pwospf_stub/sr_pwospf.c:114-126 | with addresses on all interfaces the router id is one of them, and smallest in the machine's order |
| PwospfRouters.HostOrderReverses | pwospf_stub/sr_pwospf.c:119-122 | the order compared is that of the four octets reversed |
| PwospfRouters.StartRoutesExactly | pwospf_stub/sr_pwospf.c:225-244 | the start-up entry of an interface has no gateway, leads out on it, and matches the addresses that agree with the interface's own on the bits of its mask |
| PwospfRouters.PwospfRouter.constructor | pwospf_stub/sr_pwospf.c:83-143 | start-up state: the chosen id, the own vertex, one subnet vertex, edge and route per interface, all neighbour records unknown but alive |
| PwospfRouters.PwospfRouter.AddInterfaceVertices | pwospf_stub/sr_pwospf.c:225-244 | graph and table of start-up, in place |
| PwospfRouters.PwospfRouter.HandleLsuPacket | pwospf_stub/sr_pwospf.c:408-540 | the whole handler in place: graph, frames sent, exact search from the own vertex and, if accepted, a table that serves every reached subnet as above; nothing if not; keeps the graph invariant |
| PwospfRouters.PwospfRouter.ForwardOnOthers | pwospf_stub/sr_pwospf.c:505-522 | one copy per other interface, each with that interface's hardware address |
| PwospfRouters.PwospfRouter.ApplyAndForward | pwospf_stub/sr_pwospf.c:465-523 | the loop over advertisements, graph and frames together |
| PwospfRouters.PwospfRouter.BuildLsuPacket | pwospf_stub/sr_pwospf.c:724-813 | the buffer is the update packet, whose octets `LsuPacketExactly.LsuOctets` gives one by one |
| PwospfRouters.PwospfRouter.SendLsuRound | pwospf_stub/sr_pwospf.c:706-834 | one packet per interface with the current number, which then goes up by one |
| PwospfRouters.RoundExactly | pwospf_stub/sr_pwospf.c:706-834 | a round is one update on each interface, in list order, each with that interface's addresses |
| PwospfRouters.PwospfRouter.HandleHello | pwospf_stub/sr_pwospf.c:840-885 | the first valid hello fills the record its interface name points to, later ones change only its time, and each caches its sender; an invalid one changes nothing; no other record changes |
| Hellos.HelloExactly | pwospf_stub/sr_pwospf.c:840-885 | a hello takes effect if and only if its mask is that of the first interface of that name and its interval is 5 seconds, on the one record that the digit after "eth" names: the sender is entered if the record has none, and the time is set |
| Hellos.StartExactly | pwospf_stub/sr_pwospf.c:331-343 | at start-up record k below 10 is called "eth" and the digit k, and nobody has been heard there |
| PwospfRouters.PwospfRouter.FindNeighborUsingRouterId | pwospf_stub/sr_pwospf.c:1020-1034 | the index of the first live record of that router, 0 when there is none |
| PwospfRouters.PwospfRouter.FindRouterIdForNeighbourFromSubNet | pwospf_stub/sr_pwospf.c:972-991 | the router id heard on that subnet, 0 when there is none |
| PwospfRouters.PwospfRouter.PopulateRoutingTable | pwospf_stub/sr_pwospf.c:1035-1081 | the table becomes the specified build of the old one |
| Flooding.AcceptedExactly | pwospf_stub/sr_pwospf.c:436-464 | in any run, a copy is applied if and only if the receiver is not its origin and has recorded a smaller number |
| UpdateExactly.OriginateExactly | pwospf_stub/sr_pwospf.c:706-834 | a round of the sender puts one frame on each link, numbered one above the rounds before in 16 bits, and changes nothing else |
| UpdateExactly.DeliverExactly | pwospf_stub/sr_pwospf.c:436-523 | a delivery takes one frame off; accepted, the receiver alone takes it in, and exactly as many copies as it has advertisements appear on each other link; dropped, nothing else changes |
| Flooding.DeliverRaisesOneRecord | pwospf_stub/sr_pwospf.c:436-464 | a delivery changes at most one recorded number in the whole network, and only upwards |
| Flooding.OriginateKeeps | pwospf_stub/sr_pwospf.c:706-834 | originating keeps: whoever has seen (o, s) has each neighbour seen it, be o, or have such a copy in flight |
| Flooding.DeliverKeeps | pwospf_stub/sr_pwospf.c:436-523 | delivering, accepted or dropped, keeps that invariant |
| Flooding.RunsAreSane | pwospf_stub/sr_pwospf.c:436-523 | the invariant holds after every lossless run; records never run ahead of their origin after any run |
| Flooding.QuiescentMeansCovered | pwospf_stub/sr_pwospf.c:436-523 | with nothing in flight, every router joined to an origin by a path has recorded the last number it sent |
| Flooding.RecordAtTopStays | pwospf_stub/sr_pwospf.c:446-454 | over any run, a router that has recorded number 65535 of an origin keeps that record for ever |
| FloodOutcome.DeliverLowers | pwospf_stub/sr_pwospf.c:436-523 | every delivery lowers the potential: missing sequence numbers weighted by fan-out, plus copies in flight |
| FloodOutcome.FloodsDieOut | pwospf_stub/sr_pwospf.c:436-523 | over any run, deliveries and losses are at most copies times (routers + 1) times originations, though time-to-live is never looked at |
| UpdateExactly.EventsCounted | pwospf_stub/sr_pwospf.c:436-523 | every event of a run counts, once, as an origination or as a frame taken off a link |
| FloodOutcome.RunsSettle | pwospf_stub/sr_pwospf.c:436-523 | every run can be brought to rest by deliveries alone, within the same bound and without loss |
| FloodOutcome.TopologiesOverRuns | pwospf_stub/sr_pwospf.c:436-523 | after any run, lossy or not, a router holds its own interfaces and all of each update it has recorded, and every edge it holds is its own interface or was advertised by another router |
| FloodOutcome.QuiescentTopologies | pwospf_stub/sr_pwospf.c:436-523 | with nothing in flight, every router holds all that each joined origin last advertised, and nothing made up |
| EdgeHistory.EdgesExactly | pwospf_stub/sr_pwospf.c:436-523 | after any run, at rest or not, lossy or not, a router's edges are exactly its own interface edges plus those of every update it has taken in |
| EdgeHistory.NothingIsWithdrawn | pwospf_stub/sr_pwospf.c:458-503 | an edge once held is held for good, whatever later updates say |
| EdgeHistory.SubnetHeardExactly | pwospf_stub/sr_pwospf.c:466-480 | a router has heard of another's subnet if and only if it has taken in one of that router's updates that advertises it |
| Senders.AdvertExactly | pwospf_stub/sr_pwospf.c:786-810 | an interface is advertised with the router heard there; as 0/0 while nobody has been heard there nor on eth0; otherwise with its subnet and no router |
| Senders.FirstRoundNamesNobody | pwospf_stub/sr_pwospf.c:331-343 | from the start-up records every interface is advertised as 0/0 |
| Senders.ZeroSubnetExactly | pwospf_stub/sr_pwospf.c:795-805 | subnet 0 is advertised if and only if nobody has been heard on eth0 |
| Senders.UpdatesLast | pwospf_stub/sr_pwospf.c:775-813 | over any number of hellos and rounds, whatever an update says of an edge the last update says too, subnet 0 apart |
| Agreement.EdgesAtRest | pwospf_stub/sr_pwospf.c:436-523 | at rest on a connected network a router holds its own interface edges and all that the last updates of the others speak of; and of the edges no router has taken back, nothing else |
| Agreement.RoutersAgree | pwospf_stub/sr_pwospf.c:466-503 | if links are also advertised from both ends, any two routers agree on every edge that no router has taken back, apart from the subnets of those two |
| Agreement.DistancesAgree | pwospf_stub/sr_pwospf.c:150-187 | they see the same capped distance between any two routers if no link between routers has been taken back, and from a router to a third party's subnet if that has not been taken back either |
| Agreement.SenderNetworksAgree | pwospf_stub/sr_pwospf.c:688-836 | with this sender that holds, whatever hellos came in between, of every edge but those to subnet 0 and to the subnets of the two routers compared |
| Agreement.SenderDistancesAgree | pwospf_stub/sr_pwospf.c:688-836 | and of every distance between routers, and to any third party's subnet other than 0 |
| Agreement.ZeroSubnetHeldExactly | pwospf_stub/sr_pwospf.c:795-805 | a router holds another's subnet 0 if and only if it has taken in an update sent before that one heard anybody on eth0 |
| Sha1Spec.PadShape | pwospf_stub/sha1.c:326-371 | a padded message is whole blocks, at most two after the last full one, and starts with the message |
| Sha1Spec.PadOctets | pwospf_stub/sha1.c:326-371 | after the message one octet 0x80, zeros, and in the last 8 octets the length in bits |
| Sha1Spec.PadInjective | pwospf_stub/sha1.c:326-371 | different messages have different padded streams |
| Sha1Spec.WordSequenceAt | pwospf_stub/sha1.c:224-235 | the schedule: the 16 words of the block, then the rotated exclusive or of four earlier words |
| Sha1Spec.SectionSeven | pwospf_stub/sha1.c:207-301 | compressing a block is 80 steps, each with the function and the constant of its range written out, on 80 words given by the block and the recurrence, and the final additions |
| Sha1Spec.ChooseBits | pwospf_stub/sha1.c:243-246 | the function of the first 20 steps has the bits of C where B is set and those of D elsewhere |
| Sha1Spec.MajorityBits | pwospf_stub/sha1.c:266-269 | that of steps 40 to 59 agrees with any two arguments wherever they agree |
| Sha1Spec.ParityCancels | pwospf_stub/sha1.c:255-257 | that of steps 20 to 39 and 60 to 79, given two equal arguments, is the third |
| Sha1Spec.ParityRotates | pwospf_stub/sha1.c:255-257 | and does not depend on which argument comes first |
| Sha1Spec.RotationBits | pwospf_stub/sha1.c:46-47 | the rotation by 1: the high bit becomes the low one, the others move up |
| Sha1Spec.RotationFive | pwospf_stub/sha1.c:46-47 | the rotation by 5: the high 5 bits become the low ones, the others move up |
| Sha1Spec.RotationThirty | pwospf_stub/sha1.c:46-47 | the rotation by 30 undoes two rotations by 1 |
| Sha1Spec.PackBits | pwospf_stub/sha1.c:224-230 | the four octets of a word come back by shifts |
| Sha1Spec.AppendixAFirstStep | pwospf_stub/sha1.c:224-255 | the first step of the example "abc" in Appendix A of FIPS PUB 180-1, in its published numbers |
| Sha1Spec.ChainPaddedInOne | pwospf_stub/sha1.c:349-370 | when the rest of the message leaves room, one more block finishes the padded stream |
| Sha1Spec.ChainPaddedInTwo | pwospf_stub/sha1.c:334-348 | otherwise two more blocks do |
| Sha1.CountOctet | pwospf_stub/sha1.c:163-176 | the split 64-bit counter counts 8 bits per octet and reports overflow exactly at 2^61 octets |
| Sha1.Sha1Context.Reset | pwospf_stub/sha1.c:71-85 | the context of the empty message |
| Sha1.Sha1Context.ProcessMessageBlock | pwospf_stub/sha1.c:207-301 | the four loops of 20 rounds are one compression of FIPS PUB 180-1, section 7 |
| Sha1.Sha1Context.Input | pwospf_stub/sha1.c:143-185 | absorbs any portion; the context is corrupted exactly when the total reaches 2^61 octets, or on input after the result |
| Sha1.Sha1Context.PadMessage | pwospf_stub/sha1.c:326-371 | both branches end with the digest of the whole message |
| Sha1.Sha1Context.StoreLength | pwospf_stub/sha1.c:361-368 | the last 8 octets are the 64-bit length, big-endian |
| Sha1.Sha1Context.Result | pwospf_stub/sha1.c:104-119 | succeeds exactly on an uncorrupted context, with the digest of everything absorbed; asking again gives the same |
| Sha1.HashChunks | pwospf_stub/sha1.c:71-371 | any chunking of a message succeeds exactly below 2^61 octets, and gives the one-shot digest of the concatenation |
| Checksum.Accumulate | pwospf_stub/sr_router.c:288-329 | the wrapping 32-bit accumulator and two folds, as a function of the plain sum |
| Checksum.AccumulateIsOnesSum | pwospf_stub/sr_router.c:288-329 | up to 65537 words that is the complement of the one's-complement sum of RFC 1071, section 1 |
| Checksum.WordBoundExactly | pwospf_stub/sr_router.c:288-329 | on all buffers of n words it is that complement if and only if n is at most 65537 |
| Checksum.GuardedFold | pwospf_stub/sr_router.c:1185-1211 | folding when bit 31 is set, then until nothing is left, gives the complement of the same sum for every length |
| Checksum.ChecksumsAgreeExactly | pwospf_stub/sr_router.c:288-329 | the two routines agree if and only if the length is even or the last octet is 0 |
| Checksum.StoredChecksumVerifies | pwospf_stub/sr_router.c:316-326 | storing the checksum in a zero field makes the buffer sum to 0xFFFF |
| Checksum.SetIpChecksum | pwospf_stub/sr_router.c:307-329 | the header in place: checksum word recomputed, all else unchanged |
| Checksum.IpChecksummedVerifies | pwospf_stub/sr_router.c:307-329 | a header of at least three words then verifies |
| Checksum.ChecksumElsewhere | pwospf_stub/sr_router.c:307-329 | no octet outside the checksum field changes |
| Checksum.SetIcmpChecksum | pwospf_stub/sr_router.c:288-303 | the message in place: its checksum word is the complement of the sum over length / 2 words |
| ArpCaches.ArpCache.DoesMacAddressExist | pwospf_stub/sr_router.c:333-397 | the answer of the scan, one entry past the occupied ones included; for ARP packets the visited expired entries get a new time, else nothing changes |
| ArpCaches.ArpCache.CacheMacAddress | pwospf_stub/sr_router.c:407-443 | a new entry at the first free position if and only if the lookup finds no address |
| ArpCaches.LookupExactly | pwospf_stub/sr_router.c:333-397 | a lookup answers with the first visible entry of the address that is less than 15 seconds old, and with six zeros when there is none |
| ArpCaches.LearnExactly | pwospf_stub/sr_router.c:407-443 | entry by entry, the cache after an address has been heard: the new entry with its time, and, for ARP packets, the entries over 15 seconds old that the lookup passed, restarted |
| ArpCaches.AnswerAfterArp | pwospf_stub/sr_router.c:333-443 | the answer for every address after an ARP packet: its first entry that is fresh, or expired and passed by the sender's lookup; the address just heard only for the sender, without such an entry and unless an entry for address 0 hides it |
| ArpCaches.FirstLearnedWins | pwospf_stub/sr_router.c:407-443 | for a sender other than 0 that is its first visible entry not exactly 15 seconds old, else the address just heard |
| ArpCaches.ExpiredComesBackExactly | pwospf_stub/sr_router.c:357-376 | an address no longer answered for is answered for again after another one's ARP packet if and only if its first expired entry lies in front of the entry that ends the sender's lookup |
| ArpCaches.NewAddressIsVisibleExactly | pwospf_stub/sr_router.c:345-376 | a sender never heard before can be looked up afterwards if and only if no entry for address 0 precedes it |
| ArpCaches.LearnKeepsOthers | pwospf_stub/sr_router.c:1409-1445 | caching from a link-state packet changes the answer for no other address |
| ArpCaches.ExpiryIsNotStrict | pwospf_stub/sr_router.c:357-360 | the smallest case of that: an entry 60 seconds old comes back |
| ArpCaches.ProbeRestartsAll | pwospf_stub/sr_router.c:345-376 | after a probe with sender address 0 every other address is answered for by its first visible entry not exactly 15 seconds old |
| ArpCaches.ProbeIsCached | pwospf_stub/sr_router.c:407-443 | the probe is cached as an entry for address 0, and no lookup sees further than before |
| ForwardingRules.RewrittenFields | pwospf_stub/sr_router.c:672-699 | a forwarded packet differs in both hardware addresses, time-to-live down by one and checksum, and in nothing else |
| ForwardingRules.RewrittenVerifies | pwospf_stub/sr_router.c:680-681 | the checksum of a forwarded header of at least three words verifies |
| ForwardingExactly.DecisionExactly | pwospf_stub/sr_router.c:590-670 | when a packet is sent, and when it waits, case by case: interface and hardware address are those of the first match and its next hop, or, when that hop is unknown and the source is on a network, of the first default route and its gateway; so are the interface, name and address of a request |
| ForwardingExactly.RoutedExactly | pwospf_stub/sr_router.c:581-728 | one call in octets: one frame with the source address of the last interface of that name and the fields lowered and recomputed, or one unchanged copy queued if octets 12 and 13 are 8 and 0, marked for a gateway if its hop is some route's gateway, and one request per interface of the route's name |
| ForwardingPlane.Forwarder.Choose | pwospf_stub/sr_router.c:590-670 | the order of lookups: next hop, source network, default gateway |
| ForwardingPlane.Forwarder.SendOut | pwospf_stub/sr_router.c:672-716 | the packet is rewritten in place and handed to the network |
| ForwardingPlane.Forwarder.RoutePacket | pwospf_stub/sr_router.c:581-728 | either forwards the packet once and leaves the queue alone, or appends one unchanged copy and asks for the hop's address |
| ForwardingPlane.Forwarder.Forward | pwospf_stub/sr_router.c:1287-1291 | a packet in transit, routed by the first match of its destination |
| PacketQueues.PacketQueue.AddPacket | pwospf_stub/sr_router.c:162-203 | an IP packet is copied to the tail; earlier packets stay, in order; anything else is not queued |
| PacketQueues.PacketQueue.Unlink | pwospf_stub/sr_router.c:232-246 | one packet leaves the list, from the head or the middle; the others keep their order and contents |
| ForwardingPlane.Forwarder.WalkOn | pwospf_stub/sr_router.c:221-268 | one turn in place, with both walking pointers, is the specified turn |
| ForwardingPlane.Forwarder.Release | pwospf_stub/sr_router.c:207-269 | the whole walk in place terminates with the specified queue and frames, which are those of `ReleaseExactly.WalkExactly` |
| ForwardingPlane.Forwarder.HandleArpReply | pwospf_stub/sr_router.c:953-962 | the sender is cached, then exactly the packets waiting for it that can be sent are sent, and the others stay, as in `ReleaseExactly.WalkExactly` |
| ReleaseExactly.WalkExactly | pwospf_stub/sr_router.c:207-269 | the whole walk: of the packets that wait for the sender, its own or queued for a gateway when it is one, with time-to-live above 1, those whose decision is to send are sent, in order and nothing else; what stays is all others in order, then the copies that have to wait on |
| ReleaseExactly.StaysExactly | pwospf_stub/sr_router.c:207-269 | a packet is queued after the walk if and only if it did not wait for the sender, or is the copy of one that did and has to wait on |
| ReleaseExactly.ReleasedByReply | pwospf_stub/sr_router.c:229-261 | a packet that waits for the sender goes out, in octets, once the decision is to send it, and is not queued any more |
| ReleaseExactly.GatewayReplyReleases | pwospf_stub/sr_router.c:229-261 | so does a packet queued while its next hop was a gateway, whatever its destination, when the gateway replies |
| ReleaseWalks.WalkEndsExactly | pwospf_stub/sr_router.c:207-269 | the walk comes to an end if and only if at most one packet in the queue is stuck |
| ReleaseWalks.WalkNeedNotEnd | pwospf_stub/sr_router.c:207-269 | two packets for a host whose card address starts with octet 0 keep the walk going for ever |
| ReleaseWalks.ReleaseInOrder | pwospf_stub/sr_router.c:207-269 | when every matching packet's hop is known, exactly the matching packets are sent, in queue order, and exactly the others remain, in order |
| ReleaseWalks.ReplyMakesHopKnown | pwospf_stub/sr_router.c:953-962 | after a reply, every packet routed through its sender goes to the address learned first for it, and waits on if that starts with octet 0 and its source is on no network |
| PacketConservation.RoutedOnce | pwospf_stub/sr_router.c:581-728 | one call forwards the packet once or queues it once unchanged, never both, never neither |
| PacketConservation.SameBodyExactly | pwospf_stub/sr_router.c:672-699 | the octets compared are all but 0 to 11, 22, 24 and 25 |
| PacketConservation.TurnConserves | pwospf_stub/sr_router.c:230-261 | every turn keeps the packets queued plus the packets forwarded, as multisets of all octets but hardware addresses, time-to-live and checksum |
| PacketConservation.FinishConserves | pwospf_stub/sr_router.c:207-269 | so does a whole release walk |
| PacketConservation.RunConserves | pwospf_stub/sr_router.c:207-269 | at every moment of a run of packets and replies, the packets accepted are exactly those forwarded plus those queued, in the same octets |
| PacketConservation.WalkReady | pwospf_stub/sr_router.c:255-256 | with a default gateway and a route for every waiting packet, no null route is followed by a release walk |
| PacketConservation.QueueStaysIp | pwospf_stub/sr_router.c:166-203 | over any run everything queued is an IP packet with a full header |
| EchoReplies.EchoFields | pwospf_stub/sr_router.c:1024-1047 | the reply has both address pairs exchanged, is of ICMP type 0, and is otherwise what arrived, checksum aside (headers of at least 20 octets) |
| EchoReplies.EchoKeepsHeaderSum | pwospf_stub/sr_router.c:1039-1040 | the IP header checksum, not recomputed, is still right |
| EchoReplies.EchoVerifiesExactly | pwospf_stub/sr_router.c:1042-1044 | the ICMP checksum verifies if and only if the message is even or its last octet is 0 |
| ForwardingPlane.Forwarder.HandleEcho | pwospf_stub/sr_router.c:1017-1047 | a packet whose ICMP type octet is 8 and whose time-to-live is above 1 is answered in place on the same interface, whatever its IP protocol, which the code does not look at; anything else is left alone |

## Left out

- Sockets, server sessions, file reading, packet dumps, printing: I/O. Sending is appending to a sequence of frames; time is a parameter.
- Threads, mutexes and sleeps: each handler is one atomic step, and a release walk sees one point in time.
- Static mode, `stub_sr/*` and the commented-out copy of the update handler: near-duplicates of what is modelled.
- `addValue` and the packet counters: no effect on any result.
- Expiry of neighbours and topology entries, and dropping a packet after five ARP requests: promised by the documentation, not in the code.
- Building hello packets, and the hello checksum, which is byte-swapped before it is stored.
- ARP replies and the octets of ARP requests: a request is recorded as its interface and target, because the code leaves some of its octets uninitialised.
- ICMP errors (time exceeded, port unreachable).
- ForwardingPlane.Forwarder.Forward: the code passes every IP frame to the ARP handler first, which takes one with octets 20 and 21 (the fragment field) equal to 0, 1 for an ARP request and overwrites it, and one with 0, 2 for an ARP reply; only other frames are modelled here. It also starts where the code has ruled out the null route, like `RoutePacket`.
- Memory management: allocation succeeds and nothing is freed while in use. Interface names are values, so a dangling name is not captured.
- Distance and parent of a new vertex: not set before the first search, and arbitrary here too; the search sets them before it reads them.
- Integer overflow in `d + weight`: labels stay at most 7 and weights are 1.
- ArpCaches.ArpCache.CacheMacAddress: at most 100 entries, and no lookup once there are 100; the code then reads and writes past its array. Lookups return the address as a value, where the code returns a pointer to a local array.
- ForwardingPlane.Forwarder.RoutePacket: a caller must rule out the null route the code would follow; `ForwardingRules.NullRouteExactly` says when that is. The decision is made before the packet is touched, and the two copies of the sending block are one method.
- ForwardingPlane.Forwarder.Release: only for queues with at most one stuck packet, since otherwise the walk does not end (`ReleaseWalks.WalkEndsExactly`).
- PwospfRouters.PwospfRouter.HandleLsuPacket: the packet must be as long as its advertisement count says, which the code does not check; the vertex and adjacency lists are sequences of nodes, so the `next` pointers inside them are not captured (those of the routing table and the packet queue are).
- PwospfRouters.PwospfRouter.HandleHello: the record index, read from the interface name, must be in range, and the interface must exist; the code checks neither.
- Flooding.QuiescentMeansCovered: assumes that no router has originated 65536 updates, and that each originates one advertisement per interface, as the sender does.
- Agreement.SenderNetworksAgree: assumes that the interfaces of a router have records and nonzero subnets of their own, that hellos come from nonzero router ids with addresses on the subnet they arrive on, and that links are advertised from both ends in the last updates.
- Checksum.GuardedFold: the accumulator is at least 33 bits wide, as `long` is where the router was built; words are read in little-endian order in both routines.
