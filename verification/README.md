# Physical topology set-up and location-based switch selection

This project models the network core of a fog-computing simulator. The
registry `PhysicalTopology` holds fog devices, end devices (with their
actuators), switches and point-to-point links. It validates the topology,
gives every device the id of the link that touches it, attaches each device
to the switch at the other end of that link, finds each switch's neighbour
switches, and runs a distance-vector computation. Each switch seeds a
routing table (destination → next hop, hop count) and floods it to its
neighbours until every table holds at least one entry per fog device and
actuator. The converged next hops then become switching tables
(destination → link id).

The example scenario `Muhamud` is also modelled. It places switches and
devices by a geohash-like code and attaches each device to the switch whose
code compares closest under Java's `String.compareTo`.

Modules:

- `Wrappers` (`wrappers.dfy`): `Option`. It stands for a Java reference that may be null.
- `Topology` (`topology.dfy`):
  - the records: `Link`, `FogDevice`, `EndDevice`, `Switch`;
  - the list scans as specification functions;
  - what `validateTopology` accepts;
  - link assignment, device attachment and neighbour discovery on values;
  - the soundness invariant of the switches (everything a switch lists is joined to it by a link).
- `Routing` (`routing.dfy`):
  - the routing-table update rule;
  - the flooding pass as folds over switches, neighbours and destinations;
  - seeding, the convergence test and the switching-table entries;
  - lemmas: monotonicity, joinedness, locality of next hops, completeness of the switching tables.
- `Network` (`physical_topology.dfy`): the class `PhysicalTopology`.
  - It has one `seq` field per Java list.
  - Each Java loop is a `while` loop, proved against the functions above.
  - The class invariant `Valid()` is kept by every registration and set-up step.
- `ShortestHops` (`shortest_hops.dfy`): hop counts against flood paths. It holds a six-switch ring on which the size-based stop leaves a route longer than a flood path, and a loop that stops on a pass that changes nothing, proved to keep every hop count within flood-path length.
- `GeoHash` (`geohash.dfy`): the `geoHash` encoder. The method bisects two range arrays in place and is proved equal to a bit-by-bit specification.
- `SwitchSelection` (`selection.dfy`): `String.compareTo` and the switch-selection loop.

The code behaves as follows where a reader might expect otherwise:

- One flooding pass updates the tables in place, switch after switch. Later switches in a pass see earlier updates; the pass is not synchronous.
- The convergence test is "at least `numNodes` entries" (`size() < numNodes` fails it), not "exactly".
- A next hop with no joining link is only logged and skipped; it is not reported as an error.
- The convergence loop has no round cap.

## Model

| member | source | states |
|---|---|---|
| Network.PhysicalTopology.constructor | src/org/fog/network/PhysicalTopology.java:386-391 | The registry starts with four empty lists and satisfies the invariant. |
| Network.PhysicalTopology.AddLink | src/org/fog/network/PhysicalTopology.java:59-61 | Appends a link from the first endpoint (north) to the second (south). Nothing else changes, and the invariant is kept. |
| Network.PhysicalTopology.AddFogDevice | src/org/fog/network/PhysicalTopology.java:67-69 | Appends a fog device that has no link yet; nothing else changes. |
| Network.PhysicalTopology.AddEndDevice | src/org/fog/network/PhysicalTopology.java:75-77 | Appends an end device and its actuators, with no link yet; nothing else changes. |
| Network.PhysicalTopology.AddSwitch | src/org/fog/network/PhysicalTopology.java:83-85 | Appends a switch with empty adjacency, neighbour and switching collections; the invariant is kept. |
| Topology.LastSwitchWithId | src/org/fog/network/PhysicalTopology.java:180-187 | `getSwitch`: null exactly when no switch has the id; otherwise the last switch in list order that has it. |
| Network.PhysicalTopology.GetSwitch | src/org/fog/network/PhysicalTopology.java:180-187 | The scan returns the position characterised by `LastSwitchWithId`. |
| Topology.LastLinkWithId | src/org/fog/network/PhysicalTopology.java:189-196 | `getLink(id)`: null exactly when no link has the id; otherwise the last link that has it. |
| Network.PhysicalTopology.GetLinkById | src/org/fog/network/PhysicalTopology.java:189-196 | The scan returns the position characterised by `LastLinkWithId`. |
| Topology.LastEndDeviceWithId | src/org/fog/network/PhysicalTopology.java:265-272 | `getEndDevice`: null exactly when no end device has the id; otherwise the last one that has it. |
| Network.PhysicalTopology.GetEndDevice | src/org/fog/network/PhysicalTopology.java:265-272 | The scan returns the position characterised by `LastEndDeviceWithId`. |
| Topology.FirstJoiningLink | src/org/fog/network/PhysicalTopology.java:335-342 | `getLink(e1, e2)`: null exactly when no link joins the two endpoints in either direction; otherwise the first link that does. |
| Topology.FirstJoiningLinkSymmetric | src/org/fog/network/PhysicalTopology.java:337-338 | Swapping the two endpoints finds the same link. |
| Network.PhysicalTopology.GetLinkBetween | src/org/fog/network/PhysicalTopology.java:335-342 | The early-return scan finds the link characterised by `FirstJoiningLink`. |
| Routing.AllActuators | src/org/fog/network/PhysicalTopology.java:198-205 | An id is in the list exactly when it is an actuator of some end device. The list's length is the summed lengths of the actuator lists, so duplicates are kept. |
| Routing.NumNodes | src/org/fog/network/PhysicalTopology.java:218 | The convergence threshold is the number of fog devices plus the total number of actuator entries. |
| Network.PhysicalTopology.GetActuators | src/org/fog/network/PhysicalTopology.java:198-205 | The nested loop builds the concatenation of all actuator lists in end-device order. |
| Topology.EndpointCountCovers | src/org/fog/network/PhysicalTopology.java:101-116 | Two different links touching the same id give it at least two endpoint occurrences. |
| Topology.ValidTopologyUniqueLink | src/org/fog/network/PhysicalTopology.java:96-119 | In an accepted topology, at most one link touches each fog device. |
| Network.PhysicalTopology.ValidateTopology | src/org/fog/network/PhysicalTopology.java:96-119 | Returns true exactly when no link is a self-loop and no fog device occurs twice among the link endpoints. End devices and switches are not counted. |
| Network.PhysicalTopology.ZeroCounts | src/org/fog/network/PhysicalTopology.java:97-100 | The counter map has exactly the fog device ids as keys, each mapped to 0. |
| Topology.AssignedLinkId | src/org/fog/network/PhysicalTopology.java:274-281 | A device no link touches keeps the link id it had. A changed link id names a link that touches the device. |
| Topology.AssignedLinkIdSound | src/org/fog/network/PhysicalTopology.java:274-281 | After assignment, a device's link id names a touching link; when a link touches the device, it is the last such link in list order. |
| Network.PhysicalTopology.AssignedLink | src/org/fog/network/PhysicalTopology.java:276-279 | The inner scan over links computes `AssignedLinkId`. |
| Network.PhysicalTopology.AssignLinksToFogDevices | src/org/fog/network/PhysicalTopology.java:274-281 | Each fog device gets its assigned link id. Nothing else changes, and the invariant is kept. |
| Network.PhysicalTopology.AssignLinksToEndDevices | src/org/fog/network/PhysicalTopology.java:283-290 | Each end device gets its assigned link id. Nothing else changes, and the invariant is kept. |
| Topology.SoundLinkIdFound | src/org/fog/network/PhysicalTopology.java:165 | With distinct link ids, a sound link id is found by `getLink(id)`, and the link found touches the device. |
| Topology.AttachPoint | src/org/fog/network/PhysicalTopology.java:165-167 | A position is found exactly when the device has a link id, some link has that id, and a registered switch sits at that link's other end; it is the position of that switch. Otherwise the source dereferences null. |
| Topology.Attach | src/org/fog/network/PhysicalTopology.java:163-177 | Attaching devices never changes the switches' ids or order. |
| Topology.AttachStops | src/org/fog/network/PhysicalTopology.java:163-177 | After the first failed attachment, later devices change nothing: the loop ends with the exception. |
| Topology.AttachExtends | src/org/fog/network/PhysicalTopology.java:169 | Attachment only appends to the switches' adjacency lists. |
| Topology.AttachRecords | src/org/fog/network/PhysicalTopology.java:163-177 | When attachment succeeds, every device is recorded at the switch found through its link, in the list of its kind. |
| Topology.Adjacency | src/org/fog/network/PhysicalTopology.java:158-178 | Fog devices then end devices are attached; the switches keep their ids and order. |
| Topology.AdjacencyRecords | src/org/fog/network/PhysicalTopology.java:158-178 | On success, every fog device is in its switch's adjacent entities and every end device in its switch's adjacent end devices. |
| Topology.AttachSound | src/org/fog/network/PhysicalTopology.java:163-177 | With sound link ids, attachment keeps every switch sound: a recorded device is joined to the switch by a link. |
| Topology.AttachOneSound | src/org/fog/network/PhysicalTopology.java:169 | Recording one device at its attachment point keeps all switches sound. |
| Topology.RecordSound | src/org/fog/network/PhysicalTopology.java:176 | Recording a device joined to the switch (a registered end device on the end-device list) keeps the switch sound. |
| Network.PhysicalTopology.AttachDevices | src/org/fog/network/PhysicalTopology.java:163-177 | The device loop computes `Attach`, and the failure flag marks the null dereference. |
| Network.PhysicalTopology.CalculateAdjacentEntities | src/org/fog/network/PhysicalTopology.java:158-178 | Computes `Adjacency` and keeps the invariant. On success every device is recorded at its switch. |
| Topology.NeighboursOfStep | src/org/fog/network/PhysicalTopology.java:139-151 | Scanning one more link appends its far end exactly when that end is a registered switch other than the sentinel -1. |
| Topology.NeighboursOfExactly | src/org/fog/network/PhysicalTopology.java:137-153 | An id is added as a neighbour exactly when it is not -1, is a registered switch and is joined to the switch by a link. |
| Topology.SameIdsNeighbours | src/org/fog/network/PhysicalTopology.java:147 | The `getSwitch` test gives the same answer before and after earlier switches gain neighbours. |
| Topology.WithNeighbours | src/org/fog/network/PhysicalTopology.java:137-153 | Only the neighbour lists change, and each only by appending. |
| Topology.WithNeighboursExactly | src/org/fog/network/PhysicalTopology.java:137-153 | After the scan, an id is a switch's neighbour exactly when it was one before, or it is a registered switch other than -1 that a link joins to the switch. |
| Topology.WithNeighboursSound | src/org/fog/network/PhysicalTopology.java:137-153 | Neighbour discovery keeps every switch sound: neighbours are registered switches joined by a link. |
| Network.PhysicalTopology.SwitchAtFarEnd | src/org/fog/network/PhysicalTopology.java:141-148 | Computes the far end of the link (or -1) and whether it is a registered switch. |
| Network.PhysicalTopology.AddNeighbours | src/org/fog/network/PhysicalTopology.java:139-151 | The link scan appends exactly `NeighboursOf` to one switch and changes no other switch. |
| Network.PhysicalTopology.CalculateNeighbourSwitches | src/org/fog/network/PhysicalTopology.java:137-153 | The switches become `WithNeighbours` of the old switches, and the invariant is kept. |
| Topology.SwitchesSoundGrow | src/org/fog/network/PhysicalTopology.java:59-85 | Registering more links, end devices and sound switches keeps the existing switches sound. |
| Routing.Update | src/org/fog/network/PhysicalTopology.java:317-327 | The update rule: an unknown destination is added; a known one is replaced only by a strictly smaller hop count; hop counts never grow; other destinations are untouched. |
| Routing.UpdateRoutingTable | src/org/fog/network/PhysicalTopology.java:317-327 | Only the named switch's table changes, by the update rule. |
| Routing.Relaxed | src/org/fog/network/PhysicalTopology.java:240-243 | Offering a whole table via one switch: the result knows the union of destinations. Each entry is either kept or is the offered one, via that switch with one more hop. No hop count exceeds the kept or offered count. |
| Routing.RelaxedStep | src/org/fog/network/PhysicalTopology.java:240-243 | Offering one more destination is one call of the update rule. So the keySet loop's result does not depend on the map's iteration order. |
| Network.PhysicalTopology.RelaxNeighbour | src/org/fog/network/PhysicalTopology.java:240-243 | The keySet loop, in any iteration order, offers the sender's table to the neighbour (`RelaxInto`). |
| Routing.FloodNeighboursStep | src/org/fog/network/PhysicalTopology.java:239-244 | Flooding to one more neighbour relaxes that neighbour after the earlier ones, in list order. |
| Network.PhysicalTopology.FloodFrom | src/org/fog/network/PhysicalTopology.java:238-244 | The neighbour loop computes `FloodNeighbours` for one switch. |
| Routing.RoundStep | src/org/fog/network/PhysicalTopology.java:237-245 | One more switch in the pass floods its table as updated by the earlier switches of the same pass. |
| Network.PhysicalTopology.FloodRound | src/org/fog/network/PhysicalTopology.java:237-245 | One pass over the switches computes `Round`. |
| Routing.FloodNeighboursMonotone | src/org/fog/network/PhysicalTopology.java:239-244 | Flooding loses no destination and raises no hop count. |
| Routing.RoundMonotone | src/org/fog/network/PhysicalTopology.java:237-245 | A pass loses no destination and raises no hop count. |
| Routing.RoundsMonotone | src/org/fog/network/PhysicalTopology.java:235-246 | Any number of passes loses no destination and raises no hop count. |
| Routing.FloodNeighboursJoined | src/org/fog/network/PhysicalTopology.java:239-244 | If every next hop is joined by a link to its switch, flooding to linked neighbours keeps that true. |
| Routing.RoundJoined | src/org/fog/network/PhysicalTopology.java:237-245 | A pass keeps every next hop joined by a link to its switch. |
| Routing.RoundsJoined | src/org/fog/network/PhysicalTopology.java:235-246 | Any number of passes keeps every next hop joined by a link to its switch. |
| Routing.SeedFogDevicesEntries | src/org/fog/network/PhysicalTopology.java:224-226 | Each adjacent fog device becomes its own next hop at 0 hops; other entries are untouched. |
| Routing.SeedActuatorsEntries | src/org/fog/network/PhysicalTopology.java:230-231 | Each actuator of the end device is reached through that end device at 0 hops; other entries are untouched. |
| Routing.FoundEndDevice | src/org/fog/network/PhysicalTopology.java:229 | The end device looked up for an adjacent id is registered and has that id. |
| Routing.SeedEndDevicesEntries | src/org/fog/network/PhysicalTopology.java:228-232 | Every actuator of an adjacent end device gets an entry through an adjacent end device owning it. Other entries are kept. |
| Routing.SeedTableEntries | src/org/fog/network/PhysicalTopology.java:220-233 | A seeded table has only 0-hop entries whose next hops are attached devices. It covers every attached fog device and every actuator of an attached end device. An actuator entry goes through an end device that owns it. |
| Routing.InitialTables | src/org/fog/network/PhysicalTopology.java:220-233 | There is one table per registered switch id. |
| Routing.InitialTablesLookup | src/org/fog/network/PhysicalTopology.java:220-233 | For a repeated id, the table of the last switch with that id is the one kept. |
| Routing.InitialTablesJoined | src/org/fog/network/PhysicalTopology.java:220-233 | In sound switches, every seeded next hop is joined to its switch by a link. |
| Routing.InitialTablesKeyed | src/org/fog/network/PhysicalTopology.java:220-245 | Every switch and every neighbour has a table, so `routingTables.get` never returns null during flooding. |
| Routing.SoundSwitchesRoute | src/org/fog/network/PhysicalTopology.java:228-239 | In sound switches, every adjacent end device is registered (`getEndDevice` is not null), and every neighbour is joined by a link. |
| Network.PhysicalTopology.PutFogDevices | src/org/fog/network/PhysicalTopology.java:224-226 | The loop computes the fog-device seeding. |
| Network.PhysicalTopology.PutActuators | src/org/fog/network/PhysicalTopology.java:230-231 | The loop computes the actuator seeding for one end device. |
| Network.PhysicalTopology.PutEndDevices | src/org/fog/network/PhysicalTopology.java:228-232 | The loop computes the end-device seeding. |
| Network.PhysicalTopology.SeedSwitch | src/org/fog/network/PhysicalTopology.java:221-232 | Computes one switch's seeded table. |
| Network.PhysicalTopology.SeedRoutingTables | src/org/fog/network/PhysicalTopology.java:220-233 | The loop over switches computes `InitialTables`. |
| Routing.InitialTablesLocal | src/org/fog/network/PhysicalTopology.java:220-233 | Every seeded next hop is a device attached to the switch. |
| Routing.FloodNeighboursLocal | src/org/fog/network/PhysicalTopology.java:239-244 | Flooding keeps each next hop local: an attached device, or a switch that lists the holder as its neighbour. |
| Routing.RoundLocal | src/org/fog/network/PhysicalTopology.java:237-245 | A pass keeps every next hop local. |
| Routing.RoundsLocal | src/org/fog/network/PhysicalTopology.java:235-246 | Any number of passes keeps every next hop local. |
| Network.PhysicalTopology.IsRoutingConverged | src/org/fog/network/PhysicalTopology.java:299-307 | True exactly when every table holds at least `numNodes` destinations. |
| Routing.ConvergeBounds | src/org/fog/network/PhysicalTopology.java:235 | The pass count the loop stops at is within the cap. If the tables are not converged there, the cap was reached. |
| Routing.ConvergeFirst | src/org/fog/network/PhysicalTopology.java:235 | Before the stopping pass, the tables were never converged: the loop stops at the first converged pass. |
| Network.PhysicalTopology.Flood | src/org/fog/network/PhysicalTopology.java:235-246 | The while loop returns the tables after `Converge` passes, and whether they converged. |
| ShortestHops.StableNoShortcut | src/org/fog/network/PhysicalTopology.java:211 | After a pass that changes nothing, each neighbour a switch floods to holds every destination of that switch, at most one hop further. |
| ShortestHops.StablePathBound | src/org/fog/network/PhysicalTopology.java:211 | After a pass that changes nothing, a destination known at the start of a flood path is known at its end, and the hop count there is at most the start's plus the path length. |
| ShortestHops.LongRouteNotStable | src/org/fog/network/PhysicalTopology.java:211 | Tables with a hop count above a flood path's length are changed by a further pass. |
| ShortestHops.StableStopBounds | src/org/fog/network/PhysicalTopology.java:211 | The stop-on-stable loop stops within the cap, and before the cap only on tables a further pass leaves unchanged. |
| ShortestHops.StableStopShortest | src/org/fog/network/PhysicalTopology.java:211 | When the stop-on-stable loop stops on an unchanged pass, no hop count exceeds the length of a flood path from a switch that knows the destination. |
| ShortestHops.SizeStopNotShortest | src/org/fog/network/PhysicalTopology.java:235-246 | On a six-switch ring the size-based loop stops after one pass, for every cap of at least one pass. Switch 6 then routes to fog device 100 in 4 hops, although a flood path of 2 hops reaches it, and the tables are not stable. |
| Network.PhysicalTopology.FloodUntilStable | src/org/fog/network/PhysicalTopology.java:211 | The loop as the comment intends it: it returns the tables after `StableStop` passes. When it stops on an unchanged pass, no hop count exceeds the length of a flood path from a switch that knows the destination, plus that switch's own count. |
| Network.PhysicalTopology.RoutingTables | src/org/fog/network/PhysicalTopology.java:213-246 | Seeds, then floods until converged or the cap is reached. Returns the first converged pass within the cap, with every next hop joined and local. |
| Routing.SwitchingEntries | src/org/fog/network/PhysicalTopology.java:251-260 | A destination gets a switching entry exactly when some link joins the switch to its next hop. |
| Routing.Unlinked | src/org/fog/network/PhysicalTopology.java:256-260 | The logged destinations are exactly those whose next hop no link joins. |
| Routing.SwitchingEntriesGrow | src/org/fog/network/PhysicalTopology.java:251-260 | Handling one more destination puts the first joining link's id or changes nothing. So the result does not depend on the keySet order. |
| Routing.WithSwitching | src/org/fog/network/PhysicalTopology.java:249-262 | Only the switching tables change. A destination is in a switch's new table exactly when it was there before, or its routing entry's next hop is joined to the switch by a link. |
| Routing.SwitchingComplete | src/org/fog/network/PhysicalTopology.java:249-262 | When all next hops are joined, nothing is logged and every destination gets an entry: the id of the first link joining the switch to the next hop. |
| Routing.WithSwitchingSound | src/org/fog/network/PhysicalTopology.java:249-262 | Building the switching tables keeps the switches sound. |
| Network.PhysicalTopology.AddSwitchingEntries | src/org/fog/network/PhysicalTopology.java:250-261 | The keySet loop, in any order, adds exactly `SwitchingEntries` to one switch's table. |
| Network.PhysicalTopology.BuildSwitchingTables | src/org/fog/network/PhysicalTopology.java:249-262 | The switches become `WithSwitching` of the old switches. |
| Network.PhysicalTopology.CalculateRoutingTables | src/org/fog/network/PhysicalTopology.java:213-263 | The tables are those of the first converged pass, or of the cap. After convergence, the switches gain their switching entries, and every switch's switching table covers every destination in its routing table. Otherwise the switches are untouched. The invariant is kept. |
| Network.PhysicalTopology.SetUpEntities | src/org/fog/network/PhysicalTopology.java:124-131 | Assigns links, then attaches devices. `ok` is false exactly when attachment hits a null link or switch; the switches then keep the attachments made before it, and nothing else runs. Otherwise neighbours are discovered and routing runs on the attached switches: the tables are those of the first converged pass (or the cap), and on convergence the switching tables are built, covering every known destination over a joined next hop. |
| GeoHash.TruncHalf | src/org/fog/examples/Muhamud.java:288 | The `(int)` cast of a half truncates toward zero. |
| GeoHash.BitOrSetsFreshBit | src/org/fog/examples/Muhamud.java:290 | OR-ing in a bit below the ones already set adds it. |
| GeoHash.PartialBitsStep | src/org/fog/examples/Muhamud.java:290-316 | Each iteration ORs the next bit into its place in the group. After five bits the group's code is complete and below 32, and `bits` is reset. |
| GeoHash.GroupCode | src/org/fog/examples/Muhamud.java:314 | A group's code indexes the 32-symbol alphabet. |
| GeoHash.SymbolCodeIsAlphabet | src/org/fog/examples/Muhamud.java:275 | The symbol for a code is the character code of the alphabet entry (`_base32` is an `int[]`). |
| GeoHash.DecimalTextRoundTrip | src/org/fog/examples/Muhamud.java:314 | Appending an `int` writes its decimal text, which reads back as the same number. |
| GeoHash.DecimalTextLength | src/org/fog/examples/Muhamud.java:314 | Each symbol code (48..122) is written as two or three digits. |
| GeoHash.Chunk | src/org/fog/examples/Muhamud.java:314 | Each group adds two or three characters to the text. |
| GeoHash.EncodedDigits | src/org/fog/examples/Muhamud.java:314 | The text is made of decimal digits only. |
| GeoHash.EncodeFromShape | src/org/fog/examples/Muhamud.java:287-318 | The loop stops with at least `precision` characters and overshoots by at most two. |
| GeoHash.GeoHashShape | src/org/fog/examples/Muhamud.java:261-321 | The result has at least `precision` characters and at most `precision + 2`. It is empty when `precision` is not positive, and it is all digits. |
| GeoHash.EncodedPrefix | src/org/fog/examples/Muhamud.java:314 | Text only grows by appending. |
| GeoHash.EncodeFromExtends | src/org/fog/examples/Muhamud.java:287-318 | The final text extends the text built so far. |
| GeoHash.EncodeFromPrefix | src/org/fog/examples/Muhamud.java:287-318 | A lower precision yields a prefix of the text a higher one yields. |
| GeoHash.GeoHashPrefix | src/org/fog/examples/Muhamud.java:261-321 | The geohash of a lower precision is a prefix of the geohash of a higher one. |
| GeoHash.LongitudeRangeOrdered | src/org/fog/examples/Muhamud.java:289-298 | The longitude range stays ordered within [-180, 180]. |
| GeoHash.BisectionAlternates | src/org/fog/examples/Muhamud.java:288-309 | Even steps bisect longitude and leave latitude alone. Odd steps bisect latitude, copying a longitude bound as written, and leave longitude alone. The bit is "above the truncated midpoint". |
| GeoHash.LatitudeRangeCanInvert | src/org/fog/examples/Muhamud.java:304-306 | Because the latitude branch copies a longitude bound, the latitude range can become inverted: for (45, -100) it is [0, -90] after four steps. |
| GeoHash.GroupPosition | src/org/fog/examples/Muhamud.java:311-312 | The step counter modulo 5 is the bit's place in its group; a group ends when it wraps to 0. |
| GeoHash.BitStep | src/org/fog/examples/Muhamud.java:288-316 | One iteration bisects as the specification says, ORs in the specified bit and completes the group's code every fifth step. |
| GeoHash.AppendSymbol | src/org/fog/examples/Muhamud.java:314 | Appends the decimal text of the alphabet entry's character code. |
| GeoHash.BisectStep | src/org/fog/examples/Muhamud.java:288-309 | Updating the two range arrays in place gives the specified bisection step and bit. |
| GeoHash.Encode | src/org/fog/examples/Muhamud.java:287-318 | The while loop over the range arrays produces the specified geohash. |
| GeoHash.GeoHash | src/org/fog/examples/Muhamud.java:261-321 | `geoHash(lat, lon, precision)` equals the bit-by-bit specification. |
| SwitchSelection.CompareToZero | src/org/fog/examples/Muhamud.java:225 | `compareTo` is zero exactly on equal strings. |
| SwitchSelection.CompareToAntisymmetric | src/org/fog/examples/Muhamud.java:225 | Swapping the strings negates the result. |
| SwitchSelection.CompareToCommonPrefix | src/org/fog/examples/Muhamud.java:225 | A shared prefix does not change the comparison. |
| SwitchSelection.DigitsCompareBelowThreshold | src/org/fog/examples/Muhamud.java:222-226 | Digit strings whose lengths differ by less than 10 always compare below 10. |
| SwitchSelection.GeoHashesCompareBelowThreshold | src/org/fog/examples/Muhamud.java:201-226 | Two geohashes of the same precision always compare below 10 (precision 0 or less gives two empty strings). So a device given at least one switch always gets latency 1, never the default. |
| SwitchSelection.NearSwitchAlwaysFound | src/org/fog/examples/Muhamud.java:116-134 | When the device and every switch carry geohashes of the same precision, some switch compares below 10. So `SelectSwitch` gives latency 1 and never the default switch. |
| SwitchSelection.SelectSwitch | src/org/fog/examples/Muhamud.java:220-231 | With no comparison below 10, the device keeps the default switch and latency 50. Otherwise it gets latency 1 and the first switch with the smallest comparison. |

## Left out

- Simulation entities, CloudSim names and the `Logger`: the model keeps only ids. The "link not found" error log is not modelled; `Routing.Unlinked` characterises the destinations it would report.
- The singleton `getInstance` and the list getters and setters: the model works on one `PhysicalTopology` object.
- Link latency, bandwidth and names: they do not affect the set-up.
- The global id generator: `AddLink` takes the new link's id as a parameter and requires it to be fresh.
- `Link.getOtherEndpoint` is not part of this model. It is assumed to return the endpoint other than the given one, and the `Link` constructor is assumed to store its first endpoint as north.
- An unassigned link id is `None`. `Network.PhysicalTopology.CalculateAdjacentEntities` reports the resulting `NullPointerException` as `ok == false` and stops the set-up; exceptions are not modelled otherwise.
- Network.PhysicalTopology.CalculateRoutingTables: the convergence loop takes a round cap `maxRounds`. The source loop never ends when some table can never reach `numNodes` entries; the model stops at the cap and leaves the switching tables untouched.
- Network.PhysicalTopology.RoutingTables: same round cap as `CalculateRoutingTables`.
- Network.PhysicalTopology.Flood: same round cap as `CalculateRoutingTables`.
- Network.PhysicalTopology.SetUpEntities: same round cap as `CalculateRoutingTables`.
- Routing.RoundsMonotone: the hop counts are proved never to grow, not to be shortest. The comment on `calculateRoutingTables` (PhysicalTopology.java:211) promises the hop with the fewest hops, but the loop stops on table size (lines 235 and 299-307), which does not achieve it (see the Findings section).
- ShortestHops.StablePathBound: proves the upper bound only (no hop count exceeds a flood path's length); that each hop count is the length of some path is not proved.
- Network.PhysicalTopology.FloodUntilStable: same round cap as `CalculateRoutingTables`; it is not proved that a stable pass comes within the cap.
- Iteration order over `HashMap.keySet` is left open; each choice is a nondeterministic pick. The result is proved the same for every order.
- Devices, switches and links are values kept in sequences. An update of a Java object is an update of its position, and aliasing between list entries is not modelled.
- Java `int` overflow of `hops + 1` and of `1 << k` is not modelled: the numbers stay small in any topology the lists can hold.
- GeoHash.GeoHash: coordinates are integers; every caller in `Muhamud` passes integers. Double-valued coordinates and ranges are not modelled.
- `Random` positions in `Muhamud` are parameters of `SwitchSelection.SelectSwitch` through the device geohash. The scenario set-up, the printing and the applications of `Muhamud`, `MohitTaneja` and `Project` are out of the core.
- `String.compareTo` compares UTF-16 code units; Dafny `char` values are compared instead. They agree on the digit strings the encoder produces.
- `printAdjacentEntities` and `printRoutingTables` are output only.
- The `Switch` class is not part of this model. `Switch.getGeomap()` is assumed to return the string given to the `Switch` constructor; `SwitchSelection.NearSwitchAlwaysFound` relies on this.

## Findings

| source | as written | input that shows it | evidently intended | confidence | as-written member | corrected member |
|---|---|---|---|---|---|---|
| src/org/fog/network/PhysicalTopology.java:211-246 | The flooding loop stops as soon as every table holds `numNodes` destinations (lines 235 and 299-307). A table can fill up before a shorter route reaches it, so the loop can stop with a hop count above the length of a path. | Six switches listed in the order 2, 1, 3, 4, 5, 6. Neighbour lists: 2:[6,1], 1:[3,2], 3:[1,4], 4:[3,5], 5:[4,6], 6:[5,2]. Fog device 100 is attached to switch 1. One pass fills every table; switch 6 then holds 100 via switch 5 at 4 hops, although 1 floods to 2 and 2 floods to 6 (2 hops). | As the comment at line 211 says, each switch keeps the hop with the fewest hops: flooding goes on until a pass changes nothing. | medium, not executed | ShortestHops.SizeStopNotShortest | Network.PhysicalTopology.FloodUntilStable |

`CalculateRoutingTables`, `RoutingTables`, `Flood` and `SetUpEntities` keep the size-based stop, because they model the code as written. The corrected loop is `FloodUntilStable`, with its stop round `ShortestHops.StableStop` and the bound `ShortestHops.StableStopShortest`.
