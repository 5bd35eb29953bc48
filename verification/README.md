# TAO offload: route graph, prefix matching, sketch and filter

This project models four parts of TAO (Table-centric Asynchronous flow Offloading) and proves what they keep
over every run.

* **The software route graph of the agent** (`Route*.dfy`, `VrfTable.dfy`). A prefix in the RIB and in the FIB
  names a `fib_res` slot, the slot lists addresses of shared, reference-counted next hops, and each next hop
  holds a reference on a neighbour entry. `RouteAgent.Agent` holds the tables as mutable fields and runs the
  operations with their rollback paths; `RouteState` gives the effect of each primitive update on a snapshot;
  `RouteInv`, `RouteFib` and `RouteNeigh` hold the three invariants, `RouteReset` the effect of adding a VRF;
  `RouteAbs` is the abstract table (an ordered list of next-hop keys per prefix), `RouteRuns` the runs,
  `RouteLimits` the properties that depend on the callers and `RouteExamples` runs that break them. The
  invariants carry the set of references that the running operation holds, so that the steps inside an
  operation keep them too.
* **The longest-prefix-match table** (`IpBytes.dfy`, `IpPrefix.dfy`, `LpmTrie.dfy`), down to the bit operations
  on 32-bit words and 16-byte strings.
* **The asynchronous offload loop** (`Sketch.dfy`, `Ttl.dfy`, `Offload.dfy`, `OffloadDriver.dfy`): the pipeline's
  sketch, digests in flight, the learn and aging callbacks and the time-to-live controller as a step system
  whose runs interleave them in any order.
* **The socket filter** (`Bpf.dfy`): a classic BPF interpreter and the nine-instruction program.

`Powers.dfy` and `Sequences.dfy` hold what several parts need of powers of two and of sequences.

## How the environment is modelled

* Memory allocation, hash inserts of new keys, FIB inserts and object-id allocation may fail at any call and
  then change nothing. A hash insert of a key that is present replaces the value and succeeds; the rollback of
  `rt_prefix_obj_update` depends on that. The slot array hands out its lowest free slot. The FIB is a map from
  masked prefixes with longest-match lookup and the blackhole slot as default; it refuses lengths over 32.
* Next hops live in a map from addresses to records, and path lists hold addresses: sharing and comparison by
  pointer are explicit, an allocation returns any address that is not live, and `free` removes the record.
* `RTE_ASSERT` is compiled out by default and has no effect in the model. Object ids are arbitrary numbers.
* Iterating the RIB in `ntb_route_cleanup` visits each key once, in any order.
* Addresses of the agent are in host order. Key fields are unbounded naturals; reference counts never exceed
  the number of prefixes and need no 32-bit wrap-around.
* The hash units of the pipeline are unknown functions of the flow key; the driver's add, tag and eviction
  outcomes and its two counters are part of the run. `total_insert` and `total_aged` wrap at 32 bits, the
  time-to-live at 64. Shares of the table are reals: the counters divided by 65536 are exact in single
  precision where the comparisons can change.
* Text conversion of addresses (`inet_ntop`, `inet_pton`) is the identity, and the host is little-endian.

## Where the code does not keep what one would expect

Each of these has the exact condition under which the property does hold, and a concrete input or run that
breaks it.

* Next-hop keys carry no VRF, neighbours do. `RouteNeigh.InsertedNeigh` proves that a successful insert keeps the
  neighbour counting exact if and only if the next hop is not live in another VRF; `RouteExamples.SharedNextHop`
  is a run of two inserts that breaks it.
* RIB keys are not masked, FIB keys are. `RouteFib.InsertedFib` proves that a successful insert keeps RIB and FIB
  in agreement if and only if no other key of the RIB is equal once masked; `RouteExamples.ClashingPrefixes` is a
  run that breaks it. Even then every FIB entry names a live slot (`RouteRuns.RunSafe`), so that lookups are safe
  in every run.
* Adding a VRF clears its neighbour counter, while deleting it leaves static entries in the table. After the
  cleanup of a VRF the reset keeps the counter exact if and only if no entry that a next hop had created was made
  static (`RouteReset.CleanupReset`; over whole runs `RouteLimits.VrfAddExact`); `RouteExamples.StaleNeighbour` is
  a run that breaks it.
* `RouteRuns.RunTidy` puts these together: all states of a run are tidy if and only if every step respects the
  conditions in its own state. `RouteRuns.DisciplinedTidy` gives a discipline of callers that does.
* A slot declares one cell for its paths, and multicast routes use up to eight. `RouteLimits.RunFits` proves that
  all paths of a run are stored inside their slots if and only if no insert adds a second path to a prefix;
  `RouteExamples.MulticastOverrun` is the shortest run that breaks it, and in `RouteExamples.RouteOverwritten` a
  path is stored in the slot of another live route. The model keeps lists of any length apart, so what it says of
  memory holds for the runs that fit.
* The sum in `aging_ttl_balance` can wrap. `Ttl.ScarceIsLatched` gives the exact 32-bit counters for which a
  scarce call finds the latch set; `Ttl.ScarceUnlatched` is an empty table taken for a full one.
* The time-to-live can wrap at 64 bits. `Ttl.TtlFloor` and `Offload.WrittenTtl` prove that it stays at least 56 if
  and only if no call raises it past the largest value; `Ttl.TtlWraps` is a sequence of calls that does.
* Structural invariant, reference counts, rollback and refinement hold for all runs, under none of these
  conditions.

## Model

| member | source | states |
|---|---|---|
| RouteState.MaskLeading | agent/route.c:449-450 | masking identifies exactly the addresses whose leading bits form the same number |
| RouteInv.InitCore | agent/vrf.c:267-298 | the structural invariant holds after initialisation |
| RouteInv.NeighRoundTrip | agent/neigh.c:260-345 | taking and giving back a neighbour reference restores the table and both counters exactly |
| RouteInv.NeighAcquireBase | agent/neigh.c:260-315 | after an add the table count equals the table size, all reference counts are positive, and the resolved entries are the static ones |
| RouteInv.NeighReleaseBase | agent/neigh.c:317-345 | the same after a delete |
| RouteInv.AcquireCore | agent/route.c:209-283 | taking a reference keeps the whole invariant with that reference held by the caller |
| RouteInv.ReleaseCore | agent/route.c:493-540 | giving a held reference back keeps the whole invariant; the next hop dies exactly with its last reference |
| RouteInv.MovedRefs | agent/route.c:610-650 | reference counts stay exact when references move between one prefix's path list and the running operation |
| RouteInv.InstallCore | agent/route.c:423-491 | pointing a prefix at a new slot and freeing the old one keeps the invariant if references are conserved |
| RouteInv.WithdrawCore | agent/route.c:654-680 | removing a prefix and its slot keeps the invariant with its paths' references held |
| RouteInv.SlotCount | agent/route.c:338-357 | the used slots number one more than the prefixes |
| RouteOps.AcquireRelease | agent/route.c:646-650 | releasing a reference right after acquiring it restores the state: rollback of an insert |
| RouteOps.InsertedCore | agent/route.c:578-651 | a successful insert keeps the structural invariant |
| RouteOps.RemovedCore | agent/route.c:685-761 | a successful path delete keeps the structural invariant |
| RouteOps.ReleaseAll | agent/route.c:794-798 | releasing all recorded next hops ends with no held reference and the invariant intact |
| RouteOps.Dropped | agent/route.c:764-800 | a route delete removes that prefix from RIB, FIB and slots and keeps the invariant |
| RouteOps.DropAll | agent/route.c:865-878 | deleting listed prefixes in any order removes exactly those and keeps the invariant |
| RouteAbs.AcquireAbs | agent/route.c:209-283 | taking a reference does not change any route's ordered next hops |
| RouteAbs.ReleaseAbs | agent/route.c:493-540 | giving one back does not either |
| RouteAbs.InsertedAbs | agent/route.c:610-644 | a successful insert appends the next hop to the prefix's list, or creates the prefix with it |
| RouteAbs.RemovedAbs | agent/route.c:720-756 | a successful path delete removes exactly the keyed next hop, and the prefix with its last one |
| RouteAbs.DroppedAbs | agent/route.c:764-800 | a route delete removes the prefix and no other |
| RouteAbs.DropAllAbs | agent/route.c:865-878 | cleanup removes the listed prefixes and no other |
| RouteAbs.PathIndex | agent/route.c:710-718 | the position found by pointer is the only position of the key in the list |
| RouteFib.CanonicalNoClash | agent/route.h:32-40 | masked keys of one family never share a FIB entry |
| RouteFib.NoClashMeans | agent/route.c:449-450 | two keys share a FIB entry exactly if they name the same VRF, length and leading bits |
| RouteFib.CanonicalCovers | agent/route.h:32-40 | a canonical prefix covers exactly the block of 2^(32 - length) addresses that starts at it |
| RouteFib.InsertedFib | agent/route.c:444-453 | an insert keeps RIB and FIB in agreement if and only if no other RIB key is equal once masked |
| RouteFib.RemovedFib | agent/route.c:720-756 | a path delete keeps the agreement |
| RouteFib.DroppedFib | agent/route.c:665-668 | a route delete keeps the agreement |
| RouteFib.DropAllFib | agent/route.c:865-878 | cleanup keeps the agreement |
| RouteFib.InsertedSafe | agent/route.c:444-453 | an insert keeps every FIB entry at the slot of some prefix that it is the masked form of, clashing prefixes or not |
| RouteFib.RemovedSafe | agent/route.c:720-756 | a path delete keeps it too |
| RouteFib.DropAllSafe | agent/route.c:865-878 | cleanup keeps it too |
| RouteFib.DropAllEntries | agent/route.c:665-668 | cleanup removes the FIB entries of the listed prefixes and no other |
| RouteFib.LookupFromSpec | agent/route.c:813-814 | the search by descending length finds the longest covering prefix of the RIB |
| RouteFib.LookupFromSafe | agent/route.c:813-814 | in every state the search ends at the blackhole slot or at the slot of a prefix that covers the address |
| RouteFib.LookupCorrect | agent/route.c:807-815 | on every address, clashing prefixes or not: a used slot that rejects exactly if it is the blackhole, and otherwise belongs to a matching route and has a non-empty path list; with RIB and FIB in agreement the longest matching route, and the blackhole exactly when nothing matches |
| RouteFib.SelectMpath | agent/route.c:853-862 | for every hash the selected path is inside the list: the residue of the hash, taken as an unsigned 32-bit number |
| RouteFib.SelectEvery | agent/route.c:853-862 | every path of a list is selected, once in each block of as many hashes as there are paths |
| RouteNeigh.AcquireNeigh | agent/route.c:239-246 | taking a reference in the owning VRF keeps the neighbour counting exact |
| RouteNeigh.ReleaseNeighOk | agent/route.c:524-528 | giving one back keeps it exact |
| RouteNeigh.BornNeigh | agent/neigh.c:272-309 | a next hop that comes to life adds one to its gateway's entry, creating it if needed, and records the entry's id |
| RouteNeigh.DiedNeigh | agent/neigh.c:328-344 | a next hop that dies takes one from it and removes it with the last user unless it is static |
| RouteNeigh.InsertedForeign | agent/route.c:225-283 | an insert of a next hop that is live in another VRF leaves its gateway's count wrong |
| RouteNeigh.InsertedNeigh | agent/route.c:578-651 | an insert keeps the counting exact if and only if the next hop is not live in another VRF |
| RouteNeigh.RemovedNeigh | agent/route.c:685-761 | a path delete keeps it exact |
| RouteNeigh.DroppedNeigh | agent/route.c:764-800 | a route delete keeps it exact |
| RouteNeigh.DropAllNeigh | agent/route.c:865-878 | cleanup keeps it exact |
| RouteNeigh.StaticNeigh | agent/neigh.c:162-208 | a static add counts one more user once and keeps the counting exact |
| RouteReset.ReleaseKeeps | agent/neigh.c:328-344 | giving up a next hop removes and changes no static entry but for its count |
| RouteReset.DropAllKeeps | agent/route.c:865-878 | nor does cleanup |
| RouteReset.StaticMakes | agent/neigh.c:162-208 | a static add makes its entry static and resolved with the given address, keeps its id and creator, and touches no other entry |
| RouteReset.StaticTakes | agent/neigh.c:162-208 | a static add takes over exactly the entry that a next hop created |
| RouteReset.ResetNeigh | agent/vrf.c:60-69 | the reset keeps the neighbour counting exact if and only if it found the counter at zero |
| RouteReset.EmptyVrfCount | agent/neigh.c:317-345 | in a VRF without routes the counter is zero if and only if no entry was taken over |
| RouteReset.CleanupReset | agent/vrf.c:109-139 | after the cleanup of a VRF the reset keeps counter and counting exact if and only if no entry of the VRF was created by a next hop and made static before the cleanup |
| RouteRuns.InsertRefines | agent/route.c:592-651 | every outcome of an insert is a legal abstract step: type conflict, full list, equal next hop present, shortage, or append |
| RouteRuns.DeleteRefines | agent/route.c:699-761 | every outcome of a path delete is a legal abstract step |
| RouteRuns.StepRefines | agent/route.c:578-878 | every operation keeps the structural invariant and refines the abstract table |
| RouteRuns.RunRefines | agent/route.c:578-878 | every run refines the abstract run on the same operations and statuses, and the invariant holds in each state |
| RouteRuns.OwnedMine | agent/route.c:137-140 | callers that use canonical prefixes and each next hop from one VRF meet the conditions of an insert |
| RouteRuns.StepSafe | agent/route.c:578-878 | every operation keeps every FIB entry at the slot of a prefix |
| RouteRuns.RunSafe | agent/route.c:578-878 | in every state of every run the FIB never names a freed slot |
| RouteRuns.InsertTidy | agent/route.c:578-651 | an insert keeps FIB agreement and neighbour counting if and only if it had no effect, or clashed with no prefix and shared no next hop with another VRF |
| RouteRuns.StepTidy | agent/route.c:578-878 | an operation keeps FIB agreement and neighbour counting if and only if it respects the tables |
| RouteRuns.RunTidy | agent/route.c:578-878 | FIB agreement and neighbour counting hold in all states of a run if and only if every operation respects the tables in its own state |
| RouteRuns.DisciplinedRespects | agent/route.h:32-40 | operations of disciplined callers respect the tables |
| RouteRuns.DisciplinedTidy | agent/route.c:578-878 | in every state of a run by disciplined callers FIB and RIB agree and every neighbour counts the live next hops of its VRF |
| RouteFacts.RefCountIsPathSlots | agent/route.c:281 | a next hop is live exactly if some path slot points at it, and its count is the number of such slots |
| RouteFacts.UsedSlots | agent/vrf.c:272-283 | used slots are one plus the sum of all `rib_cnt` |
| RouteFacts.CleanupEffect | agent/route.c:865-878 | cleanup removes the VRF's prefixes and its FIB entries and no other, leaves other slots as they were, zeroes its counter, and keeps just the next hops that another VRF uses |
| RouteFacts.TypeFixed | agent/route.c:369-414 | in every run a prefix keeps flags, type and limit from its first insert to its removal, through all its slots |
| RouteFacts.NhopEqualMeans | agent/route.c:182-206 | a VXLAN next hop is equal to itself alone, a TGRE next hop to those of its tunnel over any gateway |
| RouteFacts.InsertEffect | agent/route.c:592-651 | an insert fails on the other type and on a full list of one unicast or eight multicast paths, leaves a list that has the VXLAN next hop or the TGRE tunnel, and otherwise appends or lacks resources; no other prefix changes |
| RouteFacts.DeleteEffect | agent/route.c:699-761 | a delete fails on the other type, takes exactly the keyed next hop out of its place, and the prefix with its last one; no other prefix changes |
| RouteFacts.RouteAttributes | agent/route.c:369-414 | list length, limit of one or eight, type flag and object id agree; lists hold no VXLAN next hop and no TGRE tunnel twice |
| RouteLimits.StepFits | agent/route.h:77-83 | an operation keeps all path lists within the declared array if and only if it adds no path to an existing prefix |
| RouteLimits.InsertedFits | agent/route.c:385-387 | a first path fits the array and every further one does not |
| RouteLimits.FitsIsInside | agent/route.h:77-83 | lists fit if and only if every path is stored inside its own slot |
| RouteLimits.RunFits | agent/route.c:610-644 | all lists of a run fit if and only if no insert adds a second path to a prefix |
| RouteLimits.StepStatics | agent/neigh.c:162-208 | only static adds make or change static entries, and nothing removes them |
| RouteLimits.RunStatics | agent/neigh.c:162-208 | an entry is static exactly if some static add of the run made it so, and is then resolved with the address of the last one |
| RouteLimits.StepTakenOver | agent/neigh.c:162-208 | the entries taken over grow by static adds that meet an entry of a next hop, and never shrink |
| RouteLimits.RunTakenOver | agent/neigh.c:162-345 | over a run they are those of all such static adds so far |
| RouteLimits.VrfAddExact | agent/vrf.c:72-107 | adding a VRF without routes keeps the counting exact if and only if no static add of the run so far took an entry of that VRF over from a next hop |
| RouteExamples.SharedNextHop | agent/route.c:225-246 | two VRFs with one next hop: a concrete run that breaks the neighbour counting |
| RouteExamples.MulticastOverrun | agent/route.h:82 | two paths of one multicast route: a concrete run that leaves the declared array |
| RouteExamples.RouteOverwritten | agent/route.h:82 | a concrete run in which a path is stored in the slot of another live route |
| RouteExamples.StaleNeighbour | agent/vrf.c:60-69 | route, static add of its gateway, VRF delete, VRF add: a concrete run that breaks the counter |
| RouteExamples.ClashingPrefixes | agent/route.c:444-453 | two keys equal once masked: a concrete run that breaks the FIB agreement |
| RouteAgent.Agent.constructor | agent/vrf.c:267-298 | the agent starts in the initial state with the blackhole slot reserved |
| RouteAgent.Agent.NeighAdd | agent/neigh.c:260-315 | takes a reference with the entry's id, or fails with the table unchanged |
| RouteAgent.Agent.NeighDel | agent/neigh.c:317-345 | gives a reference back, removing the entry with the last one |
| RouteAgent.Agent.NeighAddStaticEntry | agent/neigh.c:162-208 | a step of the run: the entry is static and resolved, or nothing changed |
| RouteAgent.Agent.ResetVrf | agent/vrf.c:60-69 | a step of the run: the counter of the VRF is zero and nothing else changed |
| RouteAgent.Agent.NhopResolve | agent/route.c:239-255 | neighbour reference and object id are both taken or neither is |
| RouteAgent.Agent.NhopObjNew | agent/route.c:226-255 | a new next hop is in heap and table and resolved, or nothing changed |
| RouteAgent.Agent.NhopObjCreate | agent/route.c:209-299 | one more reference on the keyed next hop, or the state as it was |
| RouteAgent.Agent.NhopObjDelete | agent/route.c:493-540 | one reference less; the last one frees next hop, table entry and neighbour reference |
| RouteAgent.Agent.FibResIdAlloc | agent/route.c:338-357 | the lowest free slot, reset but for its object id |
| RouteAgent.Agent.FibResObjCreate | agent/route.c:369-421 | a new slot with the given paths, inherited flags, type, limit and object id, or no change |
| RouteAgent.Agent.FibResObjDelete | agent/route.c:548-575 | the slot is free and nothing else changed |
| RouteAgent.Agent.RtPrefixObjUpdate | agent/route.c:423-491 | RIB, FIB and counter are all updated, or all as they were |
| RouteAgent.Agent.RtPrefixObjDelete | agent/route.c:654-680 | the prefix is gone from RIB and FIB and the counter is one less |
| RouteAgent.Agent.Republish | agent/route.c:627-648 | make before break: the prefix moves to its new slot and the old one is freed, or nothing changed |
| RouteAgent.Agent.FindEqual | agent/route.c:602-606 | finds a path of the same tunnel, and for VXLAN the same gateway, if and only if there is one |
| RouteAgent.Agent.CheckInsert | agent/route.c:592-608 | settles the insert without change, or the new path is wanted |
| RouteAgent.Agent.InsertPath | agent/route.c:578-651 | a step of the run for every outcome of every call inside; on success the list has the next hop, appended exactly if neither the VXLAN next hop nor the TGRE tunnel was in it |
| RouteAgent.Agent.LinkPath | agent/route.c:610-651 | a wanted path is linked, or every table is as it was |
| RouteAgent.Agent.FindPath | agent/route.c:714-718 | the first position of an address, or the length |
| RouteAgent.Agent.OtherPaths | agent/route.c:731-738 | the list without the one path, in order |
| RouteAgent.Agent.CheckDelete | agent/route.c:699-718 | settles the delete without change, or gives the position of the keyed path |
| RouteAgent.Agent.Unlink | agent/route.c:720-749 | the path is out of its prefix, or nothing changed and the prefix has other paths |
| RouteAgent.Agent.DeletePath | agent/route.c:685-761 | a step of the run for every outcome |
| RouteAgent.Agent.ReleasePaths | agent/route.c:794-798 | the loop releases each recorded next hop once |
| RouteAgent.Agent.DropRoute | agent/route.c:764-800 | a step of the run; an unknown prefix is reported and nothing changes |
| RouteAgent.Agent.CleanupRoutes | agent/route.c:865-878 | terminates; a step of the run in whatever order the keys come |
| RouteAgent.Agent.Execute | agent/route.c:578-878 | any operation is a step of the run, and a failed one leaves the state exactly as it was |
| RouteAgent.Agent.LookupRoute | agent/route.c:807-815 | in every reachable state a used slot of a matching route or the blackhole, with every path selection in range; the longest match if RIB and FIB agree |
| RouteAgent.ExecuteAll | agent/route.c:578-878 | any sequence of operations is a run and ends with the abstract table of that run |
| VrfTable.IdsOf | agent/vrf.c:147-161 | a name has at most one slot, and its id is the position plus one |
| VrfTable.AddIds | agent/vrf.c:95-106 | filling a free slot adds one name and keeps names distinct and counted |
| VrfTable.DelIds | agent/vrf.c:133-137 | clearing a slot removes one name and keeps names distinct and counted |
| VrfTable.VrfTable.constructor | agent/vrf.c:267-298 | no VRF is valid at the start and the route tables know all ids |
| VrfTable.VrfTable.Find | agent/vrf.c:147-161 | finds exactly the added names |
| VrfTable.VrfTable.Scan | agent/vrf.c:80-89 | reports a present name, else the first free slot, else that all are taken |
| VrfTable.VrfTable.Add | agent/vrf.c:72-107 | adds the name at the lowest free slot and resets the neighbour counter of its id, which is a step of the run, and changes nothing else of the tables; idempotent; fails only if all slots are taken |
| VrfTable.VrfTable.Del | agent/vrf.c:109-139 | removes the name and cleans up the routes of its id; an unknown name changes nothing |
| IpBytes.MaskedBits | common/ipprefix.h:113-129 | byte strings agree under the mask exactly if their leading bits agree |
| IpBytes.Interval | common/ipprefix.h:28-55 | they agree exactly if one lies between the other with free bits clear and with free bits set |
| IpBytes.LessTotal | common/ipaddress.h:76 | `memcmp` order is total and its equivalence is equality |
| IpBytes.LessTransitive | common/ipaddress.h:76 | `memcmp` order is transitive |
| IpPrefix.WordOrder | common/ipaddress.h:72-74 | comparing 32-bit words in host order is comparing their bytes |
| IpPrefix.WordMaskBytes | common/ipprefix.h:61-64 | the shifted and swapped word mask has the leading bits of the address set |
| IpPrefix.PrefixBytes | common/ipprefix.h:28-178 | subnet, broadcast and containment of both families in terms of bytes |
| IpPrefix.InSubnetBits | common/ipprefix.h:99-135 | an address is in the subnet exactly if the family and the leading mask bits agree |
| IpPrefix.InSubnetInterval | common/ipprefix.h:28-55 | for addresses of either family: exactly if it lies between subnet and broadcast address in `operator<` order |
| IpPrefix.NestedOrDisjoint | common/ipprefix.h:99-135 | prefixes that share an address are nested |
| IpPrefix.SubnetIdempotent | common/ipprefix.h:137-178 | the subnet of a subnet is itself and holds the same addresses |
| IpPrefix.SubnetOfAddress | common/lpm_trie.cpp:70-71 | a masked prefix holds an address exactly if it is the address's subnet at that length |
| IpPrefix.PrefixOrderIs | common/ipprefix.h:180-186 | `operator<`: shorter prefixes first, then IPv4 before IPv6, then the byte order of the addresses |
| IpPrefix.PrefixOrderTotal | common/ipprefix.h:180-191 | `operator<` is a strict total order whose equivalence is `operator==` |
| IpPrefix.PrefixOrderTransitive | common/ipprefix.h:180-186 | `operator<` is transitive |
| IpPrefix.GetMask | common/ipprefix.h:57-87 | computes the mask of either family |
| IpPrefix.GetSubnet | common/ipprefix.h:137-178 | computes the subnet of either family |
| IpPrefix.GetBroadcastIp | common/ipprefix.h:28-55 | computes the broadcast address of either family |
| IpPrefix.IsAddressInSubnet | common/ipprefix.h:99-135 | decides containment for either family |
| LpmTrie.LongestMatchUnique | common/lpm_trie.cpp:63-79 | the longest match is unique |
| LpmTrie.FibHash.constructor | common/lpm_trie.h:41-42 | the table starts empty |
| LpmTrie.FibHash.IsExist | common/lpm_trie.cpp:12-23 | true exactly if the masked prefix is stored |
| LpmTrie.FibHash.Get | common/lpm_trie.cpp:39-51 | returns the stored value of the masked prefix, or fails exactly if there is none |
| LpmTrie.FibHash.Insert | common/lpm_trie.cpp:53-61 | stores the value under the masked prefix and changes nothing else |
| LpmTrie.FibHash.Modify | common/lpm_trie.cpp:25-37 | replaces the value of a stored prefix, or fails and changes nothing |
| LpmTrie.FibHash.Delete | common/lpm_trie.cpp:81-92 | removes the masked prefix if stored and nothing else |
| LpmTrie.FibHash.ProbeLevel | common/lpm_trie.cpp:68-77 | the one key probed at a level is the only prefix of that length that can hold the address |
| LpmTrie.FibHash.Lookup | common/lpm_trie.cpp:63-79 | returns the value of the longest stored prefix that holds the address and fails exactly if none does |
| Sketch.RunLenIsMaximal | platform/p4src/shc_real_time_sketch.p4:264-275 | the trailing run is the maximal run that ends the history |
| Sketch.TouchExtends | platform/p4src/shc_real_time_sketch.p4:239-285 | the registers hold the last fingerprint and the trailing run length capped at 255 |
| Sketch.FlagOncePerRun | platform/p4src/shc_real_time_sketch.p4:287-302 | in every maximal run the flag is raised at the tenth position and nowhere else |
| Sketch.FreshRun | platform/p4src/shc_real_time_sketch.p4:287-302 | a fresh run of equal fingerprints, of any length, is flagged at its tenth packet and at no other |
| Sketch.ReportRate | platform/p4src/shc_real_time_sketch.p4:264-302 | ten times the reports never exceed the packets of the bucket by more than one |
| Sketch.Registers.constructor | platform/p4src/shc_real_time_sketch.p4:239-264 | fingerprints start at 0 and counters at 1 |
| Sketch.Registers.Apply | platform/p4src/shc_real_time_sketch.p4:287-302 | each bucket's registers are a function of its own packets; the flag means a run of exactly ten |
| Ttl.Controller.Balance | platform/drivers/route.cpp:199-219 | the call takes the step whose sequences `Ttl.LatchedExactly`, `Ttl.TtlFloor`, `Ttl.Converges` and `Ttl.Recovers` describe |
| Ttl.SharesInEntries | platform/drivers/route.cpp:200-206 | the two comparisons in entries, for all 32-bit counters: more than 55705 in the table, and at most 9830 free or aged where the sum may wrap |
| Ttl.LatchedExactly | platform/drivers/route.cpp:200-203 | over every sequence of calls the latch is set if and only if some call found more than 55705 entries |
| Ttl.ScarceIsLatched | platform/drivers/route.cpp:199-219 | for all 32-bit counters, a scarce call finds the latch set if and only if it was set, the table is crowded, or the sum does not wrap into the scarce range |
| Ttl.ScarceOfTable | platform/drivers/route.cpp:199-219 | so it does as long as the aged entries leave room for the table size in 32 bits |
| Ttl.ScarceUnlatched | platform/drivers/route.cpp:204 | an empty table whose sum wraps is taken for a full one with the latch unset |
| Ttl.LatchStays | platform/drivers/route.cpp:200-203 | the latch never resets |
| Ttl.TtlFloor | platform/drivers/route.cpp:205-214 | over every sequence of calls the time-to-live stays at least 56 if and only if no call raises it past 64 bits, and it is 5000 until the latch is set |
| Ttl.ShortNeverTops | platform/drivers/route.cpp:211-213 | which no sequence of fewer than 2^64 - 5000 calls does |
| Ttl.TtlWraps | platform/drivers/route.cpp:211-213 | 2^64 - 5000 calls that take it to zero |
| Ttl.Converges | platform/drivers/route.cpp:206-210 | sustained scarcity brings it into 56..60 in exactly ceil((t-60)/5) calls and keeps it there, once latched, which the first call sees to unless its sum wraps |
| Ttl.Recovers | platform/drivers/route.cpp:211-213 | sustained plenty raises it by one a call |
| Offload.EveryOrigin | platform/p4src/shc_real_time_sketch.p4:457-492 | every key in flight or in the table was reported by a missing packet that completed a run of ten |
| Offload.InstalledWasReported | platform/drivers/shc_digest.cpp:102-222 | a key that is installed was so reported before |
| Offload.EntryStep | platform/drivers/route.cpp:24-36 | an add writes the entry of its key with the next hop and the current time-to-live, an eviction removes it, a tag marks it, and nothing else touches it |
| Offload.TableHistory | platform/drivers/route.cpp:100-124 | over every run a key is in the table if and only if some event added it and none evicted it since, with the next hop of the last add, the time-to-live of that moment, and a tag exactly if it was tagged since |
| Offload.BucketOfFlow | platform/p4src/shc_real_time_sketch.p4:457-475 | which bucket a packet of a flow touches, with and without candidates, on a hit and on a miss |
| Offload.DigestsConserved | platform/drivers/shc_digest.cpp:102-222 | every digest is in flight, added, refused or lost, once |
| Offload.InsertTotal | platform/drivers/shc_digest.cpp:205-211 | `total_insert` is the number of successful adds |
| Offload.AgedTotal | platform/drivers/shc_aging.cpp:81-92 | `total_aged` is the number of tags that took |
| Offload.CtlIsBalance | platform/drivers/route.cpp:199-219 | the controller's state depends on the balance calls alone |
| Offload.WrittenTtl | platform/drivers/route.cpp:24-36 | what an add would write is at least 56 at all times of a run if and only if no balance call raises it past 64 bits |
| Offload.EntryTtl | platform/drivers/route.cpp:24-36 | then no entry of the table has a time-to-live under 56 |
| Offload.DigestRate | platform/p4src/shc_real_time_sketch.p4:480-492 | ten times the digests of a bucket never exceed its packets by more than one |
| Offload.FreshRunDigest | platform/p4src/shc_real_time_sketch.p4:457-492 | in every interleaving a fresh run of a bucket sends a digest at its tenth packet, if that packet misses, and at no other |
| OffloadDriver.Switch.constructor | platform/drivers/route.hpp:24 | the loop starts with empty tables and the initial controller |
| OffloadDriver.Switch.Ingress | platform/p4src/shc_real_time_sketch.p4:440-493 | a packet step; a digest is sent exactly if the flag is raised and the key misses |
| OffloadDriver.Switch.BalanceTtl | platform/drivers/route.cpp:199-219 | a balance step |
| OffloadDriver.Switch.AddEntry | platform/drivers/shc_digest.cpp:148-211 | a learn step: the key of the digest is in the table with next hop 1 and the current time-to-live, or was refused and the table is as it was |
| OffloadDriver.Switch.LearnCallback | platform/drivers/shc_digest.cpp:90-237 | one add per digest of the batch, each success followed by a balance call; exactly the keys of the successes are new in the table, and their entries are untagged with next hop 1 |
| OffloadDriver.Switch.TagEntry | platform/drivers/shc_aging.cpp:79-88 | an aging step: the entry is tagged if the tag took, and no other entry changes |
| OffloadDriver.Switch.IdletimeCallback | platform/drivers/shc_aging.cpp:53-103 | a tag that takes is counted and followed by a balance call |
| Bpf.Terminates | agent/netio.c:103-113 | a program with forward in-range jumps that ends in a return stops within its length on every packet |
| Bpf.HalfWords | agent/netio.c:105-110 | the half-words that the program loads, byte by byte in network order |
| Bpf.FilterCorrect | agent/netio.c:103-113 | the filter accepts a byte sequence of any length exactly if its protocol byte is 17, the 13 bits of the fragment offset are 0 and the captured destination port bytes behind the variable-length IP header are 4789 in network order (section 3.1 of RFC 791, section 5 of RFC 7348) |

## Left out

- Hardware pushes inside the lookup functions and the HAL wrappers: calls into a driver that is not shown.
- RouteAgent.Agent.FibResObjCreate: keeps the path list as a sequence; it does not write the second path of a multicast route over the memory behind the slot, where `RouteLimits.FitsIsInside` says it is stored.
- The prefix type computed in `rt_prefix_obj_update` and `rt_prefix_obj_delete`: it selects a hardware table and changes nothing in the code shown.
- Encapsulation types other than VXLAN and TGRE, and route types other than default and multicast.
- Calls whose prefix names another VRF than the `vrf_dp` they are given: the model takes the VRF from the prefix.
- Tunnel maps, ARP proxies, MAC and internal-address settings of a VRF, and `ntb_tunnel_map_cleanup` on VRF delete.
- VrfTable.VrfTable.Add: requires names shorter than 64 characters, because `strncpy` leaves longer ones unterminated.
- The wrap-around of `neigh_cnt` below 0, which needs a next hop shared by two VRFs or the reset of a VRF with routes.
- Neighbour learning, the lookup of a neighbour's MAC address and its time stamps.
- Parsing and printing of addresses and prefixes, and the throwing constructors, whose accepted values are the types `Address` and `Prefix`.
- Packets without an IPv4 header, which skip the ingress control; the pipeline's packet counter, its parser and deparser, checksums and hash functions.
- The replacement policy of the driver, which is an arbitrary eviction here, and the sessions and field ids of the table API.
- Packet I/O, sockets, threads and the other pipeline variants.
