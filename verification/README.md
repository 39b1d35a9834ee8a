# Multicast forwarding and the IP output path, verified

This project models, in Dafny, the parts of the repository that decide what a node does with
a packet, and proves what holds of them over whole runs.

* **The SMF relay** (`SlidingWindow`, `SmfNode`, `SmfRuns`, `SmfService`, `Flooding`, `EndlessFlood`,
  `Coverage`). A wireless node relays multicast packets by flooding or through MPR selectors
  (sections 5 and 6 of RFC 6621). Duplicates are told by a sliding window per source, which forgets
  and which refuses what is old. The receive path is a class that works through the source's chain
  of early returns on a duplicate tree of its own and is proved to realise a table of predicates;
  receptions, prune timeouts and control messages can follow each other in any order (`SmfService`).
  On the table rest theorems about runs of one node (which arrival is relayed, what duplicate
  filtering changes, what pruning can and cannot undo) and about networks of nodes (no identity is
  sent twice, flooding stops, whom it reaches), each with the condition on the identifiers in use
  under which it holds.
* **The IP output path** (`Kernel`, `Fragmentation`, `Journey`, `OutputSpec`, `Dispatch`, `OutputPath`,
  `DirectedBroadcast`, `TrafficSplit`, `ShareVolumes`). From the routing decision to the interface: broadcast, load
  balancing, record route, fragmentation and tunnels. `Kernel` is the contract of the simulator's
  packet kernel: a registry that says of every packet object whether it is still in hand; none of its
  operations takes a packet that has been given away. The procedures run on that registry. What
  leaves the path is a function of packet and decision, `SendOut`, and the procedures are proved to
  put out exactly that. `Dispatch` says what it means, from the fields of the decision and the events
  put out alone. `Journey` follows one datagram through any number of hops (section 3.2 of
  RFC 791 for fragmentation, section 3.1 for record route). Offsets are in bytes, not in units of
  eight octets, because that is what the code keeps.
* **Flow ageing** (`FlowLinks`, `FlowLists`, `FibTable`, `ForwardingTable`, `DuplicateTree`,
  `DpdFlowList`, `DpdWindow`, `DpdDetector`). Doubly linked lists on the heap and what they are for:
  the forwarding table's two lists, which share the link fields of their entries; the duplicate
  tree's list, which leaves stale links in what it removes; and the list of the window based
  detector, which must agree with a lookup tree. The pruning scans run on these lists, and are proved
  to find exactly the stale flows although they stop at the first fresh one and the ticks wrap.
* **Identifiers** (`FlowIds`, `NeighbourSearch`, `LocalSequence`, `FlowKey`). Renaming of flow ids,
  the search for the one neighbour on a subnet, the sequence numbers of local packets, and the
  variable-length flow key.

Everything outside is a parameter: addresses, interface states, filter and rate verdicts, the
results of route lookups, the clock. A flow on a list is an object with its links; its other fields
are kept by the owner of the list, in a map under the flow's key. The keyed trees and the bit mask
behind the sliding window come from a library that is not part of this model, and are given by what
they are documented to do.

## What the code does that one might not expect

* The duplicate detector of the relay is not a set of everything seen. A packet is relayed exactly at
  its first eligible arrival if its source's identifiers fit the window (`RelaysRightIff`) and at most
  once if they lie within the past the window accounts for (`RelaysOnceIff`), and in neither case
  under any weaker condition: an old packet may never be relayed (`OldPacketIsNeverRelayed`), and a
  restarted window relays again (`RestartRelaysAgain`).
* In a network the same condition is exact as well. No node transmits an identity twice (`OnceIff`),
  and flooding stops (`EndsIff`), in every network and every run, exactly if the identifiers of each
  source in flight lie within the past. Otherwise two nodes are enough to keep the packets going back
  and forth for ever (`FloodsWithoutEnd`).
* A duplicate does not refresh its flow. What separates two relays of one packet is therefore a prune
  before which its source brought nothing *new* for the maximum age (`AtMostOncePerDryGap`), not one
  before which it was silent (`DuplicatesDoNotRefresh`); `QuietBetweenIff` says when it is one of these,
  too.
* Pruning the forwarding table takes a stale managed entry out of the idle list but leaves its idle
  flag set. The next packet of that flow then takes the entry out of a list it is not in, which
  leaves the idle list without head or tail: all other idle entries are in no list any more
  (`LoseIdle`; `LosingRun` builds such a run from the empty table). `PruneFlowList` says exactly when
  a prune leaves such an entry behind.
* The relay decrements the TTL on a copy it only inspects; the frame that is relayed is a new copy
  of the captured packet, so its TTL is the one it arrived with. Elsewhere in the repository copies
  are given different header fields (fragments, broadcast copies), so a copy's header is its own.
  `Flooding` covers both readings: `shared` says whether the decrement shows in the relayed frame.
  With private headers a TTL of one stops a flood after one hop, and any other TTL lets it reach
  every node next to a relay (`CoverageExactly`).
* Duplicate filtering makes a node remember packets it was not asked to relay. A filtering node that
  relays for some stations only may therefore miss a packet it should have relayed, because it heard
  it from another station first (`FilteringForestalls`).
* The TTL tests compare the decremented value with zero, so a TTL of zero or less passes. The clamp
  that is to keep directed broadcasts from going round therefore misses those that come from a link
  with a TTL below one, and only those (`DirectedBroadcastSpreadsIff`); they go on through any number
  of routers (`StormGoesOn`).
* Fragmentation does not account for every packet. If the MTU is below the header size it mostly
  makes no piece at all, and the packet and what was taken out of it are lost track of
  (`LeakingExample`); a fragment with its own "data" field, or a whole datagram with an "ip_dgram"
  field, also leaves a packet behind. `LeakFree` is the exact condition at one interface, `Clean`
  asks it of every interface the packet is put on, and `JourneyNeverLeaks` shows that fragments of an
  ordinary datagram satisfy it wherever there is room for payload. An MTU equal to the header size
  divides by zero; `Defined` excludes just that.
* Asking a flow key without a source for its source prefix length reads the destination's length
  byte (`AbsentSourceMask`).

## Model

| member | source | states |
|---|---|---|
| `SlidingWindow.IsDuplicate` | src/common/smfWindow.cpp:84-149 | what is behind but inside the window is refused if it was seen; what is further behind is refused up to the past maximum, and from there on is new and restarts the window; what is ahead is new and moves the front; and what the window holds afterwards |
| `SlidingWindow.RuleHolds` | src/common/smfWindow.cpp:84-149 | the rule just stated, on distances, window size and past maximum, for the functions the theorems about sets and runs are stated on |
| `SlidingWindow.RefusedStays` | src/common/smfWindow.cpp:84-149 | inside an arc no longer than the past, whatever is looked at, what is refused stays refused |
| `SlidingWindow.OnlyItGetsRefused` | src/common/smfWindow.cpp:84-149 | inside an arc no longer than the window, looking at one number refuses no other |
| `SlidingWindow.NoneTwiceIff` | src/common/smfWindow.cpp:84-149 | in any order and any number of repetitions no number of a set counts as new twice, exactly if the set lies within an arc as long as the past |
| `SlidingWindow.FirstOnlyIff` | src/common/smfWindow.cpp:84-149 | each counts as new at its first occurrence and no other, in any order, exactly if the set lies within an arc as long as the window |
| `SlidingWindow.NoArcCircle` | src/common/smfWindow.cpp:84-149 | numbers that no arc as long as the past holds include two or three that restart the window for each other in a circle, so that each counts as new again and again |
| `SmfNode.SmfProcess.constructor` | opnet/12.0/smf_protolib.pr.cpp:320-338 | a new process relays nothing by default, selects nobody, has an empty duplicate tree of its own, and prunes flows older than ten seconds |
| `SmfNode.SmfProcess.IsDuplicate` | src/common/smfDupTree.cpp:71-122 | the process consults its tree on the heap: the verdict is that of the source's window, and tree, list and what the process knows stay in step |
| `SmfNode.SmfProcess.IsSelector` | opnet/12.0/smf_protolib.pr.cpp:880-891 | the pointer walk finds an address exactly if it lies at a multiple of four that starts before the list length |
| `SmfNode.SmfProcess.OnPktReceive` | opnet/12.0/smf_protolib.pr.cpp:382-769 | counters, detector, relay flag and duplicate flag after a reception are those of the decision table (`Forwards`, `Withholds`, `After`), tree and list are in step again, and the captured packet itself is not touched; outbound packets and those for other than a multicast target change no flag, no detector and no counter but the first |
| `SmfNode.OnlyMulticastIsRelayed` | opnet/12.0/smf_protolib.pr.cpp:404-603 | whatever is not multicast, or outbound on a node that does not resequence, is neither relayed nor withheld nor remembered |
| `SmfNode.RelaysExactly` | opnet/12.0/smf_protolib.pr.cpp:616-767 | of the inbound multicast packets exactly those are relayed that are new, not the node's own by station or source address, not of TTL one, and heard from a station it relays for; and exactly which are withheld |
| `SmfNode.SmfProcess.OnMulticast` | opnet/12.0/smf_protolib.pr.cpp:604-767 | the multicast part of the above: filtering first, then what follows in the source's order |
| `SmfNode.SmfProcess.Screen` | opnet/12.0/smf_protolib.pr.cpp:616-675 | selection, own packets and TTL in this order let pass exactly the eligible packets, and an own packet is withheld from the layers above exactly if the node filters |
| `SmfNode.SmfProcess.Decide` | opnet/12.0/smf_protolib.pr.cpp:677-765 | a packet let pass is counted as a duplicate or relayed, on the verdict already given or, without filtering, on a consultation made only now |
| `SmfNode.SmfProcess.CaptureFrame` | opnet/12.0/wlan_mac_smf.pr.c:6106-6131 | the MAC queues a frame exactly if the node forwards and the MAC has a place for it, with the header as captured, and passes the packet up exactly if it is not withheld |
| `SmfNode.MacQueue.DataArrival` | opnet/12.0/wlan_mac_smf.pr.c:1904-1971 | a frame is queued exactly if it is not empty, fits a transmission unit whole or in pieces, and fits the buffer |
| `SmfNode.SmfProcess.OnPruneTimeout` | opnet/12.0/smf_protolib.pr.cpp:909-921 | after any receptions and timeouts: the clock advances by five, the scan of the duplicate tree runs, and exactly the flows of wrapped age above the maximum go |
| `SmfNode.SmfProcess.OnForwardMac` | opnet/12.0/smf_protolib.pr.cpp:811-826 | the front of the selector buffer is overwritten, an overlong list cut to its size |
| `SmfNode.SmfProcess.OnDefaultForward` | opnet/12.0/smf_protolib.pr.cpp:1129-1143 | relaying by default goes on or off, and nothing else changes |
| `SmfNode.SelectorListRoundTrip` | opnet/12.0/smf_protolib.pr.cpp:811-891 | after a "forwardMac" message the node selects exactly the first 150 of the stations named, whatever the buffer held before |
| `SmfNode.SelectsAfterMessage` | opnet/12.0/smf_protolib.pr.cpp:811-891 | for a message of any length, exactly the addresses at a multiple of four before its end or byte 600, the last of which may end in bytes that were there before |
| `SmfService.Handle` | opnet/12.0/smf_protolib.pr.cpp:382-921 | each kind of event leaves the process as the node model says, ready for the next event of any kind |
| `SmfService.Serve` | opnet/12.0/smf_protolib.pr.cpp:382-921 | over any sequence of events the process on the heap relays exactly what the run of the node model relays, and ends as that run ends; so all results about runs are results about the process |
| `SmfRuns.RefusedIffConsulted` | opnet/12.0/smf_protolib.pr.cpp:610-692 | without pruning, if the identifiers of its source fit the window, an identity is refused exactly if it was at the start or the detector has been consulted for it |
| `SmfRuns.ForwardsIff` | opnet/12.0/smf_protolib.pr.cpp:610-692 | then an arrival is relayed exactly if it is eligible and no earlier arrival consulted the detector for its identity |
| `SmfRuns.FirstEligibleForwards` | opnet/12.0/smf_protolib.pr.cpp:617-692 | filtering off, identifiers fitting the window: a packet is relayed at its first eligible arrival and no other, so once if it is ever eligible, else never |
| `SmfRuns.FirstMulticastForwards` | opnet/12.0/smf_protolib.pr.cpp:610-692 | filtering on, identifiers fitting the window: only the first multicast arrival can be relayed, and is exactly if that arrival is eligible |
| `SmfRuns.FilteringOnlySuppresses` | opnet/12.0/smf_protolib.pr.cpp:610-692 | on the same events the filtering node relays exactly what the other one relays, less the packets whose first multicast arrival was not eligible |
| `SmfRuns.RelaysRightIff` | src/common/smfWindow.cpp:84-149 | a source's packets are relayed at their first eligible arrival only (on a filtering node: at their first multicast arrival, if that is eligible), in every run without a prune, exactly if its identifiers fit the window |
| `SmfRuns.RelaysOnceIff` | src/common/smfWindow.cpp:84-149 | no packet of a source is relayed twice, by a node filtering or not, in every run without a prune, exactly if its identifiers lie within the past maximum (within the window, if that is half the range) |
| `SmfRuns.OldPacketIsNeverRelayed` | src/common/smfWindow.cpp:123-126 | window 16, past 1000: after packet 100 packet 50 is not relayed although it is eligible and was never seen |
| `SmfRuns.RestartRelaysAgain` | src/common/smfWindow.cpp:128-134 | window 16, past 1000: packet 5 is relayed again after packet 5005, with no prune between |
| `SmfRuns.AgeAtMostElapsed` | include/smfDupTree.h:85-89 | the wrapped age never overstates the time elapsed |
| `SmfRuns.DroppedMeansDry` | src/common/smfDupTree.cpp:109-140 | a flow dropped by a prune has seen no new identifier for longer than the maximum age |
| `SmfRuns.DroppedIffDry` | src/common/smfDupTree.cpp:124-140 | at a prune a flow goes exactly if, at five seconds a timeout, its latest new packet lies longer back than the maximum age, while no age has gone once around |
| `SmfRuns.RefusedUntilDry` | src/common/smfDupTree.cpp:109-140 | from its first sight on an identity stays refused until a prune finds that its source has brought nothing new for that long |
| `SmfRuns.AtMostOncePerDryGap` | src/common/smfDupTree.cpp:109-140 | in any mix of events, two relays of one identity by one node are separated by such a prune, if the source's identifiers lie within the past |
| `SmfRuns.DryBetweenRelaysIff` | src/common/smfDupTree.cpp:109-140 | over all mixes of events any two relays of one identity are separated by such a prune, exactly if the source's identifiers lie within the past |
| `SmfRuns.ThreeTimeoutsApart` | opnet/12.0/smf_protolib.pr.cpp:325-335 | with the constructor's settings, by at least three timeouts |
| `SmfRuns.QuietIff` | src/common/smfDupTree.cpp:109-121 | when the gap is also one in which the source was not heard at all for that long: exactly if every duplicate in it came that long before the prune |
| `SmfRuns.QuietBetweenIff` | src/common/smfDupTree.cpp:109-121 | between two relays of a packet the source was unheard for that long before some prune, exactly if some dry gap between them had its duplicates early |
| `SmfRuns.DuplicatesDoNotRefresh` | src/common/smfDupTree.cpp:109-121 | six events after which a packet has been relayed twice although its source was heard within the maximum age before each prune |
| `SmfRuns.CountersTell` | opnet/12.0/smf_protolib.pr.cpp:404-767 | over every run the four counters are, around their 32 bits, the numbers of packets captured, of multicast ones, of those relayed and of those not relayed only because they had been seen |
| `Flooding.SafeRun` | opnet/12.0/smf_protolib.pr.cpp:617-692 | over every run, with any loss, topology and selectors, in which each node can tell the packets in flight apart (one per source, or identifiers within the past): what a node relayed or a filtering node passed up it refuses, and it did so once |
| `Flooding.NoIdentityTwice` | opnet/12.0/smf_protolib.pr.cpp:617-692 | then no node transmits an identity twice, no filtering node passes one up twice, and transmissions are at most nodes times identities; from any start, windows in use included |
| `Flooding.PotentialDrops` | opnet/12.0/smf_protolib.pr.cpp:617-692 | every delivery and every loss lowers a measure of frames in flight and transmissions to come |
| `Flooding.RunsAreFinite` | opnet/12.0/smf_protolib.pr.cpp:617-692 | hence a bound on the length of every such run, in frames in flight, nodes and identities |
| `Flooding.OnlyMulticastSpreads` | opnet/12.0/smf_protolib.pr.cpp:596-606 | over every run, with any loss, topology and selectors: only multicast packets are relayed or passed up as such, and only those in flight to begin with |
| `Flooding.OthersEnd` | opnet/12.0/smf_protolib.pr.cpp:596-601 | a frame for another target comes to an end where it is delivered and leaves nothing behind but a count |
| `EndlessFlood.FloodsWithoutEnd` | src/common/smfWindow.cpp:84-149 | for any identities of which some restart each other's windows in a circle: two fresh nodes, just these identities in flight, and runs of any length, each step a transmission |
| `EndlessFlood.OnceIff` | src/common/smfWindow.cpp:84-149 | in every network and run from fresh nodes no identity is transmitted twice by a node or passed up twice by a filtering one, exactly if the identifiers of each source in flight lie within the past maximum (within the window, if that is half the range) |
| `EndlessFlood.EndsIff` | src/common/smfWindow.cpp:84-149 | from every such start runs are bounded, exactly under the same condition |
| `Coverage.FloodRun` | opnet/12.0/smf_protolib.pr.cpp:596-766 | the invariant of a lossless flood, any selectors: knowing is having relayed, hearing is having passed up; the relays of a frame are distinct; what a relay said to a neighbour is under way, or was heard and relayed if the neighbour relays for it |
| `Coverage.FloodCovers` | opnet/12.0/smf_protolib.pr.cpp:596-766 | when the flood of one packet has died down, exactly the nodes next to the origin or to a relay reached from it have received it and passed it up, and exactly those relays have relayed it, once; a relay is reached over links whose receiver relays for their sender |
| `Coverage.DefaultFloodCovers` | opnet/12.0/smf_protolib.pr.cpp:596-766 | with default forwarding everywhere exactly the nodes reachable from the origin receive the packet, and all of these but the origin relay it |
| `Coverage.FilteringForestalls` | opnet/12.0/smf_protolib.pr.cpp:610-692 | after a packet has come from a station it does not relay for, a node still relays it for one it does exactly if it does not filter |
| `Coverage.CoverageExactly` | opnet/12.0/wlan_mac_smf.pr.c:6116-6119 | as the code stands, a flood reaches all nodes exactly if its TTL is one and all are neighbours of the origin, or its TTL is not one and all are next to the origin or a relay reached |
| `Kernel.Registry.Copy` | opnet/11.5/ip_rte_support.ex.c:5059 | a copy is a new packet in hand with the same contents |
| `Kernel.Registry.TakeData` | opnet/11.5/ip_rte_support.ex.c:5048 | taking out a nested packet leaves the field empty and puts the nested packet in hand |
| `Kernel.Registry.PutCarried` | opnet/11.5/ip_rte_support.ex.c:5183 | putting a packet into another gives it away |
| `Kernel.Registry.Send` | opnet/11.5/ip_rte_support.ex.c:5375-5385 | sending gives the packet away and logs it |
| `Kernel.Registry.Destroy` | opnet/11.5/ip_rte_support.ex.c:3325 | destroying gives the packet away and logs nothing |
| `Kernel.LeftoversStay` | opnet/11.5/ip_rte_support.ex.c:3205-3242 | a packet left over by one step is still left over after the next: two steps account for everything exactly if both do |
| `Fragmentation.NumFragsBounds` | opnet/11.5/ip_rte_support.ex.c:5018-5021 | the number computed is such that all pieces but the last are full and the last is neither empty nor overfull |
| `Fragmentation.FragsChain` | opnet/11.5/ip_rte_support.ex.c:4962-5207 | one step cuts the payload range into consecutive non-empty ranges |
| `Fragmentation.PiecesFit` | opnet/11.5/ip_rte_support.ex.c:5060-5165 | each piece made fits the MTU, has the computed header and is marked a fragment |
| `Fragmentation.NothingOversized` | opnet/11.5/ip_rte_support.ex.c:4971-5021 | with room for payload nothing goes out larger than the MTU; what is larger is cut in two or more, each with the header of the packet and, for IPv6, eight bytes more; what is within it goes out as it is, unless compression makes it larger |
| `Fragmentation.FewestFragments` | opnet/11.5/ip_rte_support.ex.c:5018-5021 | no way of cutting the payload into parts that fit uses fewer of them |
| `Fragmentation.ShareRounds` | opnet/11.5/ip_rte_support.ex.c:5092-5104 | truncating first to bits and then to bytes truncates to bytes |
| `Fragmentation.LoadsConserved` | opnet/11.5/ip_rte_support.ex.c:5092-5144 | the pieces' loads (uncompressed size less header) add up to the load divided, rounding or not |
| `Fragmentation.FullShare` | opnet/11.5/ip_rte_support.ex.c:5092-5104 | a full piece gets its proportional load rounded down to whole bytes |
| `Fragmentation.LastShare` | opnet/11.5/ip_rte_support.ex.c:5143-5144 | the last piece gets at least its proportion, and less than eight bits more per earlier piece |
| `Fragmentation.LoadsNonNegativeIff` | opnet/11.5/ip_rte_support.ex.c:5092-5144 | all loads are non-negative exactly if the load divided is |
| `Journey.JourneyInvariant` | opnet/11.5/ip_rte_support.ex.c:4962-5207 | over every run of record-route and fragmentation steps on any piece at any MTU: the ranges chain up, and only the last piece carries the original |
| `Journey.FragmentsPartition` | opnet/11.5/ip_rte_support.ex.c:4962-5207 | every payload byte lies in exactly one fragment, no other byte in any, none is empty |
| `Journey.ReassemblyRestoresPayload` | opnet/11.5/ip_rte_support.ex.c:5063-5165 | put together in offset order, the fragments of any run are the original bytes |
| `Journey.UniqueCarrier` | opnet/11.5/ip_rte_support.ex.c:5030-5201 | exactly the fragment covering the last byte carries a datagram; it is the original with one route entry per hop of the carrier, in order; no fragment has the data field |
| `Journey.UncutRecordsRoute` | opnet/11.5/ip_rte_support.ex.c:7527-7576 | a datagram never cut records every hop itself |
| `Journey.JourneyConservesLoad` | opnet/11.5/ip_rte_support.ex.c:5092-5144 | under per-circuit compression a journey neither gains nor loses load, but for the eight bytes of fragment header each cut takes from an IPv6 datagram |
| `Journey.JourneyLoadsIff` | opnet/11.5/ip_rte_support.ex.c:5092-5144 | no piece ever has a negative load, at any point of a journey, exactly if the datagram has none and every piece that is cut has at least what the cut takes |
| `Journey.JourneyLoadsV4` | opnet/11.5/ip_rte_support.ex.c:5092-5144 | with IPv4, where a cut takes nothing, exactly if the datagram has none |
| `OutputSpec.SomePieceIff` | opnet/11.5/ip_rte_support.ex.c:5018-5021 | when the number of pieces is at least one: room for payload, or one of two corner cases of the truncating division |
| `OutputSpec.LeakingExample` | opnet/11.5/ip_rte_support.ex.c:5030-5052 | a packet that fragmentation takes apart and never gives away |
| `OutputPath.DgramDiscard` | opnet/11.5/ip_rte_support.ex.c:3256-3327 | a discarded packet is accounted for and nothing leaves |
| `OutputPath.PacketTunnel` | opnet/11.5/ip_rte_support.ex.c:7724-8012 | a packet is encapsulated and handed back to IP, or dropped (loop, protocol not passed, no addresses), and accounted for on every way through; what comes out has the TTL configured or that of the packet, which is found inside, and is larger by tunnel and IP header |
| `OutputSpec.TunnelledOnce` | opnet/11.5/ip_rte_support.ex.c:7754-7769 | a packet this node has put into a tunnel does not go into a tunnel here again |
| `Dispatch.TunnelCopies` | opnet/11.5/ip_rte_support.ex.c:7661-8012 | which packets a tunnel turns away, and that any other comes out once for each endpoint meant, encapsulated: TTL, sizes, and the packet found inside |
| `Dispatch.SendDispatched` | opnet/11.5/ip_rte_support.ex.c:2249-2447 | what goes up, aside and on, and how often, from the fields of the decision |
| `Dispatch.EverythingLeavesByDecision` | opnet/11.5/ip_rte_support.ex.c:3026-3249 | every frame and tunnel packet leaves by an interface decided on, neither blocked nor over its rate, frames by one with a stream and no tunnel, tunnel packets by one with; and in room for payload within the MTU |
| `Dispatch.UnicastLeaves` | opnet/11.5/ip_rte_support.ex.c:3100-3249 | a packet neither broadcast nor split does leave by its interface, its TTL one less if it came from a link, and not at all if that is zero |
| `Dispatch.UnicastTunnelled` | opnet/11.5/ip_rte_support.ex.c:5365-5392 | or goes into the tunnel there, to the next hop decided on |
| `Dispatch.EachShareLeaves` | opnet/11.5/ip_rte_support.ex.c:3205-3242 | over interfaces that send it whole each share leaves by its own, in order, with its part of the volume |
| `Dispatch.BroadcastInTurn` | opnet/11.5/ip_rte_support.ex.c:2577-2737 | a broadcast on all interfaces comes out of the usable ones in order, its address there recorded and the next hop the broadcast address there, an unset TTL made one: nothing where packets do not pass, one frame on a link, a tunnel packet for each endpoint of a tunnel; before it goes up, if it does |
| `Dispatch.StopsUsable` | opnet/11.5/ip_rte_support.ex.c:2586-2600 | these interfaces are the usable ones, all of them and no other, in order |
| `Dispatch.SingleBroadcastLeaves` | opnet/11.5/ip_rte_support.ex.c:2738-2783 | a broadcast on one interface, also one that goes up as well, comes out there in the same way, with a TTL of one if it is made here or came with at least two, not at all if it came with one |
| `Dispatch.SplitInTurn` | opnet/11.5/ip_rte_support.ex.c:3205-3242 | a packet split over shares comes out of their interfaces in the same way, each share with its own next hop |
| `OutputPath.PacketTunnelProc` | opnet/11.5/ip_rte_support.ex.c:7661-7721 | a group address goes to every endpoint of a multipoint tunnel, another address only to an endpoint that has it: as many tunnel packets as endpoints meant, none if the packet is turned away |
| `OutputPath.FragSend` | opnet/11.5/ip_rte_support.ex.c:5213-5392 | a fragment goes through the interface's tunnel, to its stream, or is dropped |
| `OutputPath.FilledIsPiece` | opnet/11.5/ip_rte_support.ex.c:5060-5165 | the fields the loop fills in from its running totals are those of the closed form |
| `OutputPath.TakeOut` | opnet/11.5/ip_rte_support.ex.c:5030-5052 | the nested packets are taken out before anything is copied |
| `OutputPath.CopyPiece` | opnet/11.5/ip_rte_support.ex.c:5054-5165 | the in-place field updates of one copy, in order |
| `OutputPath.Encapsulate` | opnet/11.5/ip_rte_support.ex.c:5166-5201 | the last piece gets the original, or what the original carried; which of the packets in hand are thereby given away |
| `OutputPath.SendIndexed` | opnet/11.5/ip_rte_support.ex.c:5054-5206 | one round of the loop sends the piece of that index and brings the totals up to date |
| `OutputPath.SendPieces` | opnet/11.5/ip_rte_support.ex.c:5054-5206 | the loop sends every piece of the closed form in order |
| `OutputPath.PkFragment` | opnet/11.5/ip_rte_support.ex.c:4837-5208 | what goes out is exactly the fragments, none larger than the MTU if there is room for payload, by the interface given; and the packet and all its parts are accounted for exactly if `LeakFree` (or the rate policy drops it) |
| `OutputPath.ForwardOnSingleInterface` | opnet/11.5/ip_rte_support.ex.c:3026-3095 | filter verdict, scaling of a tracer's volume by its ratio, fragmentation |
| `OutputPath.ForwardShares` | opnet/11.5/ip_rte_support.ex.c:3205-3242 | one copy per share, the packet itself for the last; accounted for exactly if every share's interface is free of leaks |
| `OutputPath.ForwardDirect` | opnet/11.5/ip_rte_support.ex.c:3100-3249 | packets from a link lose one from their TTL and go no further at zero; then one interface, or the shares |
| `OutputPath.OptionsProcess` | opnet/11.5/ip_rte_support.ex.c:7498-7576 | the interface is recorded on the packet, or on the datagram a fragment carries, which is put back |
| `OutputPath.BroadcastOn` | opnet/11.5/ip_rte_support.ex.c:2602-2725 | one copy, its own route recorded, forwarded on one interface to the broadcast address there |
| `OutputPath.BroadcastAll` | opnet/11.5/ip_rte_support.ex.c:2586-2737 | a copy on each usable interface in order, then the original is destroyed |
| `OutputPath.DatagramBroadcast` | opnet/11.5/ip_rte_support.ex.c:2547-2783 | a broadcast goes to all interfaces or to one, and is accounted for exactly if fragmentation is free of leaks at every open one it is put on |
| `OutputPath.BroadcastEverywhere` | opnet/11.5/ip_rte_support.ex.c:2577-2737 | on all interfaces an unset TTL becomes one |
| `OutputPath.BroadcastOne` | opnet/11.5/ip_rte_support.ex.c:2738-2783 | on a single interface the TTL is clamped first |
| `OutputPath.PacketSend` | opnet/11.5/ip_rte_support.ex.c:2249-2447 | whatever the decision: the packet goes up once, as it is and last of all, exactly if it is for this node and not destroyed or redirected to mobile IP or MANET; aside once exactly if redirected; what goes on leaves by interfaces decided on that let packets pass; no other packet is touched; and the packet and every packet made on the way are accounted for exactly if fragmentation is free of leaks at every open interface the packet is put on |
| `OutputPath.FollowDecision` | opnet/11.5/ip_rte_support.ex.c:2249-2447 | the branches in the source's order put out `SendOut` |
| `OutputPath.SendUpAndOn` | opnet/11.5/ip_rte_support.ex.c:2321-2395 | a directed broadcast for another subnet is copied before the packet goes up |
| `OutputPath.ConsumedMeansFates` | opnet/11.5/ip_rte_support.ex.c:2249-2447 | accounted for means: the packet and everything made on the way has a fate and cannot be used again |
| `OutputPath.RegularIsClean` | opnet/11.5/ip_rte_support.ex.c:4962-5052 | where the interfaces it is put on have room for payload, a packet of the usual form is accounted for |
| `OutputPath.JourneyNeverLeaks` | opnet/11.5/ip_rte_support.ex.c:4962-5207 | and every fragment reachable on a journey is of that form |
| `DirectedBroadcast.ForwardOutTtl` | opnet/11.5/ip_rte_support.ex.c:3156-3184 | through split, fragmentation and tunnels, every datagram forwarded goes out, as a frame or inside a tunnel packet, with one TTL, or none does |
| `DirectedBroadcast.SpentPacketStaysOffTheWire` | opnet/11.5/ip_rte_support.ex.c:3156-3184 | a packet from a link with TTL one never gets onto a link again, whatever is decided about it |
| `DirectedBroadcast.DirectedBroadcastCannotStorm` | opnet/11.5/ip_rte_support.ex.c:2748-2780 | a directed broadcast made here or received with a TTL of at least one goes out, on a link or inside a tunnel packet, with TTL one or not at all, and no receiver puts it or a copy on the wire again |
| `DirectedBroadcast.DirectedBroadcastTtlExactly` | opnet/11.5/ip_rte_support.ex.c:2748-2761 | for which TTLs the clamp yields one, and for which nothing is sent |
| `DirectedBroadcast.RebroadcastOut` | opnet/11.5/ip_rte_support.ex.c:2738-2783 | what a router that takes the frame for a directed broadcast puts on a clear interface |
| `DirectedBroadcast.SpreadsIff` | opnet/11.5/ip_rte_support.ex.c:3156-3184 | some router can put a frame from a link on a link again exactly if its TTL is not one |
| `DirectedBroadcast.DirectedBroadcastSpreadsIff` | opnet/11.5/ip_rte_support.ex.c:2748-2761 | a datagram of a directed broadcast, on a link or out of a tunnel, can be put on a link again exactly if the broadcast came from a link with a TTL below one |
| `DirectedBroadcast.StormGoesOn` | opnet/11.5/ip_rte_support.ex.c:2748-2761 | such a frame goes on through any number of routers, its TTL falling by one at each |
| `DirectedBroadcast.StormIff` | opnet/11.5/ip_rte_support.ex.c:2748-2761 | past a second router gets exactly a frame whose TTL was below one to begin with |
| `ShareVolumes.SplitKeepsVolume` | opnet/11.5/ip_rte_support.ex.c:3205-3242 | over clear interfaces each share puts out one frame, and the frames carry the volume shared out by the ratios |
| `ShareVolumes.SharedVolumeTotal` | opnet/11.5/ip_rte_support.ex.c:3075-3077 | shared out, the volume is multiplied by the sum of the ratios |
| `ShareVolumes.SharesOffer` | opnet/11.5/ip_rte_support.ex.c:3205-3242 | whatever the interfaces do, they are handed the volume shared out by the ratios, and what leaves is what they make of that |
| `TrafficSplit.CollectHops` | opnet/11.5/ip_rte_support.ex.c:6682-6772 | the first pass leaves the usable hops in order, their inverse costs added up and the free ones counted |
| `TrafficSplit.FillRatios` | opnet/11.5/ip_rte_support.ex.c:6784-6815 | the second pass turns marks and shares into final ratios |
| `TrafficSplit.Compact` | opnet/11.5/ip_rte_support.ex.c:6817-6839 | the third pass keeps the free hops in order and fills exactly their number of slots |
| `TrafficSplit.BgutilPacketSplit` | opnet/11.5/ip_rte_support.ex.c:6651-6839 | the packet is destroyed exactly if no hop is reachable and not special; else there is one tracer for each hop that carries traffic, in order, with the interface and address of that hop |
| `TrafficSplit.SplitPlaced` | opnet/11.5/ip_rte_support.ex.c:6651-6839 | the hops that carry traffic: those reachable and not special, and of these just the free ones if there are any; no tracer is for another |
| `TrafficSplit.RatiosSumToOne` | opnet/11.5/ip_rte_support.ex.c:6784-6815 | whenever a hop is usable the ratios returned add up to exactly one |
| `TrafficSplit.RatiosFollowCosts` | opnet/11.5/ip_rte_support.ex.c:6784-6815 | free hops share equally and are then the only ones kept; else ratio times cost is the same for all |
| `TrafficSplit.SplitAndForwardConserveVolume` | opnet/11.5/ip_rte_support.ex.c:3205-3242 | split and forwarding loop together hand the interfaces exactly the volume that came in, and over clear interfaces put it on the links |
| `FlowLists.ActiveList.Prepend` | include/mcastFib.h:890-900 | the chain gets the entry in front, in both directions |
| `FlowLists.ActiveList.Remove` | include/mcastFib.h:901-923 | the chain closes over the entry, and the entry's links are both null; an entry in no list and without links empties the list instead |
| `FibTable.SignedAgeIsElapsed` | include/mcastFib.h:875-876 | the signed 32-bit age is the time elapsed exactly while that is below half the range |
| `FibTable.AgeExactly` | src/common/mcastFib.cpp:568-585 | an entry's age is the time since its last refresh, cut off at the maximum, for any time up to a whole wrap |
| `FibTable.AgreeActivated` | src/common/mcastFib.cpp:1707-1713 | activating an entry keeps table, flags, times and the order of both lists in agreement |
| `FibTable.AgreeDemoted` | src/common/mcastFib.cpp:1715-1723 | so does demoting one, because it is stamped with the current tick |
| `FibTable.AgreeDropped` | src/common/mcastFib.cpp:1768-1776 | taking a stale idle entry out leaves them in agreement, with the entry stranded if it is managed |
| `ForwardingTable.MulticastFib.InsertEntry` | include/mcastFib.h:936-937 | a new flow is in neither list |
| `ForwardingTable.MulticastFib.RefreshFlow` | include/mcastFib.h:966-972 | the flow is stamped and goes to the front of the active list; lists stay disjoint, flags right, both lists in age order |
| `ForwardingTable.MulticastFib.ActivateFlow` | src/common/mcastFib.cpp:1707-1713 | the flow is stamped, flagged and heads the active list, whatever state the idle list is in |
| `ForwardingTable.MulticastFib.DeactivateFlow` | src/common/mcastFib.cpp:1715-1723 | the flow is stamped with the current tick, flagged idle and heads the idle list |
| `ForwardingTable.MulticastFib.ReactivateFlow` | include/mcastFib.h:956-964 | an idle flow leaves the idle list, loses its flag and heads the active list; a stranded one leaves the idle list with neither head nor tail and a count one too low |
| `ForwardingTable.MulticastFib.PruneFlowList` | src/common/mcastFib.cpp:1726-1788 | exactly the active entries not refreshed for the one timeout are demoted and exactly the idle ones not refreshed for the other are taken out, in order; managed ones of these stay in the table, stranded, so the idle flag still tells the idle list exactly if it did before and no stale idle entry is managed |
| `ForwardingTable.MulticastFib.LoseIdle` | src/common/mcastFib.cpp:1757-1779 | a managed entry stale in the idle list, a prune, and a packet of that flow: the idle list is empty, and every other entry that was in it is still flagged idle |
| `ForwardingTable.ManagedIdle` | src/common/mcastFib.cpp:1726-1788 | a run that leads to a managed entry in the idle list |
| `ForwardingTable.LosingRun` | src/common/mcastFib.cpp:1757-1779 | a run from the empty table that ends with an entry flagged idle, not managed and in no list |
| `DuplicateTree.FlowList.Prepend` | include/smfDupTree.h:116-126 | the chain gets the flow in front, whatever links it had |
| `DuplicateTree.FlowList.Remove` | include/smfDupTree.h:127-140 | the chain closes over the flow, whose own links keep pointing into the list |
| `DuplicateTree.DupTree.IsDuplicate` | src/common/smfDupTree.cpp:71-122 | verdict and records are those of the window of the source; only a new number stamps the flow and moves it to the head, which keeps tree, list and age order in agreement |
| `DuplicateTree.DupTree.Prune` | src/common/smfDupTree.cpp:124-140 | the scan from the tail removes exactly the flows whose wrapped age exceeds the maximum, from tree and list, and keeps the order |
| `DuplicateTree.ExactlyPruned` | src/common/smfDupTree.cpp:124-140 | if only stale records have gone and none is left, what is left is exactly what a prune leaves |
| `DuplicateTree.TailDecides` | src/common/smfDupTree.cpp:130-138 | if the flow at the tail is fresh, all are, so the scan may stop |
| `DuplicateTree.AgreeMoved` | src/common/smfDupTree.cpp:109-121 | stamping a flow and moving it to the head keeps tree and list in agreement and the order |
| `DpdFlowList.List.Find` | include/smfDpd.h:72-73 | the tree finds an identifier exactly if a flow of the list has it |
| `DpdFlowList.List.AppendToList` | src/common/smfDpd.cpp:102-116 | the chain gets the flow at the end, whatever links it had |
| `DpdFlowList.List.RemoveFromList` | src/common/smfDpd.cpp:118-130 | the chain closes over the flow, whose own links keep pointing into the list |
| `DpdFlowList.List.Append` | src/common/smfDpd.cpp:132-137 | the flow is added to list, tree and count |
| `DpdFlowList.List.MoveToTail` | include/smfDpd.h:75-79 | the flow goes to the tail, tree and count unchanged and still agreeing |
| `DpdFlowList.List.Remove` | include/smfDpd.h:81-86 | the flow leaves list, tree and count together |
| `DpdWindow.WindowIsDuplicate` | src/common/smfDpd.cpp:542-615 | a number is refused exactly if it is inside the window and was seen; one further behind restarts the window, however far |
| `DpdWindow.RightIff` | src/common/smfDpd.cpp:542-615 | a set of numbers is decided rightly in any order exactly if it fits the window, and exactly then is none accepted twice |
| `DpdWindow.HeadDecides` | src/common/smfDpd.cpp:711-728 | if the flow at the head is fresh, all are, so the iteration may stop |
| `DpdDetector.Detector.IsDuplicate` | src/common/smfDpd.cpp:641-709 | verdict and records are those of the window of the flow; only a new number stamps the flow and moves it to the tail, which keeps tree, list and age order in agreement |
| `DpdDetector.Detector.Prune` | src/common/smfDpd.cpp:711-728 | the iteration from the head removes exactly the flows whose wrapped age exceeds the maximum, and keeps the order |
| `FlowIds.ComparatorsAgree` | opnet/11.5/ip_rte_support.ex.c:2787-2843 | the criteria for inserting and searching agree on every pair and are a strict total order |
| `FlowIds.InsertKeepsSorted` | opnet/11.5/ip_rte_support.ex.c:2899-2902 | inserting a new key keeps the list sorted |
| `FlowIds.Node.FlowIdSwap` | opnet/11.5/ip_rte_support.ex.c:2848-2909 | a known key gets its id, a new one a fresh id and a place in the interface's list |
| `FlowIds.MappingStableAndInjective` | opnet/11.5/ip_rte_support.ex.c:2848-2909 | over a whole run two packets get the same outgoing id exactly if interface, incoming id and next hop agree |
| `FlowIds.ListsStaySorted` | opnet/11.5/ip_rte_support.ex.c:2848-2909 | every list stays sorted and free of duplicate keys |
| `NeighbourSearch.NextHopAddress` | opnet/11.5/ip_rte_support.ex.c:9855-9972 | an address is returned exactly if it is that of the only other table entry in the interface's subnet |
| `NeighbourSearch.SubnetRange` | opnet/11.5/ip_rte_support.ex.c:9904-9952 | the subnet is the range of its size that starts at the last multiple of it |
| `NeighbourSearch.NoneBeyond` | opnet/11.5/ip_rte_support.ex.c:9904-9952 | past the first entry outside the subnet there is none inside, so each scan may stop |
| `LocalSequence.SequenceFlow.IncrementSequence` | include/smfDpd.h:421-422 | the masked old counter is returned and the 32-bit counter wraps |
| `LocalSequence.SequenceFlow.IncrementLocalSequence` | include/smf.h:118-128 | a zero is skipped by a second increment, the result cut to 16 bits |
| `LocalSequence.StepMasked` | include/smf.h:118-128 | one call seen through the mask: never zero, and the counter is left at the number after the result |
| `LocalSequence.BumpedMod` | include/smfDpd.h:421-422 | counting up commutes with the mask, also across the wrap of the counter |
| `LocalSequence.ResultsCycle` | include/smf.h:118-128 | results count up from one to the largest number of the size and start over |
| `LocalSequence.LocalSequenceNumbers` | include/smf.h:118-128 | from any start: no result is zero, any 2^k - 1 consecutive ones are distinct, then they repeat |
| `FlowKey.Description.SetKey` | src/common/flowTable.cpp:113-191 | the key is the documented layout; a flow too long for it clears the size and leaves key and prefix as they were; the prefix is as long as the leading specified fields and what is specified of the first open one, so it covers the whole key exactly if no field is left open |
| `FlowKey.OffsetsFit` | include/flowTable.h:114-172 | for every flow that fits, the chained offsets land where the layout put the fields |
| `FlowKey.KeyLayout` | src/common/flowTable.cpp:125-186 | where each field lies in the key, byte by byte |
| `FlowKey.KeyRoundTrip` | include/flowTable.h:27-95 | the accessors read back every field, present or absent |
| `FlowKey.KeyInjective` | include/flowTable.h:27-37 | equal keys mean equal flows |
| `FlowKey.AbsentSourceMask` | include/flowTable.h:81-82 | without a source, its prefix length reads as the destination's length, so as zero exactly if there is no destination |
| `FlowKey.AbsentDestinationMask` | include/flowTable.h:75-76 | without a destination, its prefix length reads as zero |

## Left out

- IsDuplicate, WindowIsDuplicate: sequence numbers are 32 bits wide, as the relay sets them up; other sizes are left out, as are a failed allocation of a flow and the check for a changed number size. A window of half the range, whose signed size overflows, is excluded by `Config`. A distance of exactly half the range, whose negation overflows in the source, counts as half the range.
- OnPktReceive: the IPv6 branch behind a compile-time switch is left out; an IPv6 packet is only known not to be IPv4. The resequencing branch cannot be reached, as the sequence flag is always true, and is left out, too.
- OnPruneTimeout: a process whose maximum age and prune interval together make a whole 32-bit wrap is excluded by `Valid`; with such settings the age of a flow could go once around between two timeouts.
- RelaysExactly: an outbound packet that a resequencing node captures is treated by the same table and is covered by `OnPktReceive` alone.
- FloodCovers: asks that filtering nodes relay by default (`Unprejudiced`); for the others coverage depends on the order of arrival, as `FilteringForestalls` shows at one node. That selectors stay as they are during the flood is part of the network model.
- CoverageExactly: is about lossless runs; with losses no coverage holds, and `NoIdentityTwice` and `RunsAreFinite` are what remains. A frame the MAC has no place for counts as lost.
- NoIdentityTwice, OnceIff, EndsIff: networks run without prunes; what prunes can undo at one node is said by `AtMostOncePerDryGap`.
- PkFragment, CopyPiece: compression per interface, whose ratio is random, is left out; an MTU equal to the header size, at which the source divides by zero, is excluded by `Defined`.
- LastShare: asks for a non-negative load and, if the computed header is negative, for sizes no smaller than the payload (`LoadSane`), so that the truncation is applied to non-negative numbers.
- ShareRounds, FullShare, LoadsNonNegativeIff: the rounding is exact integer arithmetic; that the source passes through floating point is left out.
- JourneyLoadsIff, JourneyLoadsV4: are about datagrams whose size is at least their payload, so that the header it implies is not negative.
- SplitKeepsVolume: is about interfaces that send every copy whole on their link; `SharesOffer` is about any.
- RatiosSumToOne: is about exact real arithmetic; floating-point rounding is left out. Route costs are non-negative.
- PacketSend: takes the verdicts of filters, rate policies, mobile IP, MANET, MPLS and interface states as inputs; redirections stay `Other`. Failures of the kernel calls that set fields are left out.
- SpentPacketStaysOffTheWire: a packet handed over to mobile IP, MANET, MPLS or another slot counts as off the wire; what these do with it is left out.
- StormGoesOn: the TTL is an unbounded integer, so that it falls for ever; the wrap of the source's field is left out.
- PacketTunnel: the addresses of the outer datagram and the encapsulation delay are left out, as is the interface the packet is later routed to.
- ForwardOnSingleInterface: the renaming of a tracer's flow id at this point is modelled on its own (`FlowIds`).
- SignedAgeIsElapsed, AgeExactly, PruneFlowList: times a whole wrap or more apart are not told from shorter ones by a 32-bit tick, so the statements are for entries refreshed less than a wrap ago.
- RefreshFlow, ActivateFlow: token buckets, upstream relays and update counts of an entry are left out, as are changes of the managed flag after the entry was made.
- SetKey: the value of the protocol number that stands for any protocol comes from a library and is a parameter.
- The duplicate tree's list counts its members without bound; the other lists count in 32 bits.
- `SmfSequenceMgr::FlowList` has the same two operations, word for word, as the duplicate tree's list and is not modelled again; the table based detector keeps identifiers in a tree instead of a window and is left out.
- The list search and sorted insertion, the address comparison and the flow index source come from the simulator's libraries and are modelled by their contracts.
- The lookups of minor port and received interface: short chains of single branches.
- ICIs, statistics, animation, tracing, control messages other than "forwardMac" and "defaultForward", OLSR hello capture: no content beyond input and output.
- Route-map and number-range matching, token buckets, reinforcement-learning metrics, message codecs: single branches, or nothing that spans operations.
