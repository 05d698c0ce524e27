/** The routing computation of `PhysicalTopology.calculateRoutingTables`
    as pure specifications: per-switch tables destination -> (next hop,
    number of hops), their seeding from the attached entities, the
    relaxation that floods them to neighbour switches, the convergence test
    and the translation of next hops into link ids. */
module Routing {
  import opened Wrappers
  import opened Topology

  /** `Pair<nextHop, numHops>`. */
  datatype Entry = Entry(nextHop: int, hops: int)

  /** One switch's routing table: destination -> entry. */
  type Table = map<int, Entry>

  /** All the routing tables: switch id -> table. */
  type Tables = map<int, Table>

  // ---------------------------------------------------------------------
  // updateRoutingTable

  /** The update rule on one table: an absent destination is inserted, a
      present one is replaced only by a strictly shorter route. */
  function Update(t: Table, dst: int, nextHop: int, numHops: int): (r: Table)
    ensures r.Keys == t.Keys + {dst}
    ensures forall d :: d in t && d != dst ==> r[d] == t[d]
    ensures dst !in t ==> r[dst] == Entry(nextHop, numHops)
    ensures dst in t ==> r[dst].hops <= t[dst].hops && r[dst].hops <= numHops
    ensures dst in t ==> r[dst] == t[dst] || (numHops < t[dst].hops && r[dst] == Entry(nextHop, numHops))
    ensures dst in t && numHops >= t[dst].hops ==> r == t
  {
    if dst in t && numHops >= t[dst].hops then t else t[dst := Entry(nextHop, numHops)]
  }

  /** `updateRoutingTable(routingTables, swId, dst, nextHop, numHops)`: only
      the table of switch swId can change, and in it only the entry for dst. */
  function UpdateRoutingTable(tables: Tables, swId: int, dst: int, nextHop: int, numHops: int): (r: Tables)
    requires swId in tables
    ensures r.Keys == tables.Keys
    ensures forall s :: s in tables && s != swId ==> r[s] == tables[s]
    ensures r[swId] == Update(tables[swId], dst, nextHop, numHops)
  {
    tables[swId := Update(tables[swId], dst, nextHop, numHops)]
  }

  /** Updating a table just put in place is putting the updated table. */
  lemma UpdateRoutingTableAfterPut(tables: Tables, swId: int, t: Table, dst: int, nextHop: int, numHops: int)
    ensures UpdateRoutingTable(tables[swId := t], swId, dst, nextHop, numHops)
            == tables[swId := Update(t, dst, nextHop, numHops)]
  {
  }

  // ---------------------------------------------------------------------
  // Flooding

  /** The table of a neighbour after `updateRoutingTable` has been applied,
      via switch `via`, for every destination of `src` with one more hop. The
      updates touch distinct destinations, so their order does not matter. */
  function Relaxed(target: Table, src: Table, via: int): (r: Table)
    ensures r.Keys == target.Keys + src.Keys
    ensures forall d :: d in r ==>
              (d in target && r[d] == target[d])
              || (d in src && r[d] == Entry(via, src[d].hops + 1))
    ensures forall d :: d in target ==> r[d].hops <= target[d].hops
    ensures forall d :: d in src ==> r[d].hops <= src[d].hops + 1
  {
    map d | d in target.Keys + src.Keys ::
      if d in src && (d !in target || src[d].hops + 1 < target[d].hops) then Entry(via, src[d].hops + 1)
      else target[d]
  }

  /** Switch `from` floods its table to switch `to`. */
  function RelaxInto(tables: Tables, from: int, to: int): (r: Tables)
    requires from in tables && to in tables
    ensures r.Keys == tables.Keys
  {
    tables[to := Relaxed(tables[to], tables[from], from)]
  }

  /** Every switch id, and every id in a neighbour list, has a table. */
  predicate Keyed(tables: Tables, switches: seq<Switch>)
  {
    forall i :: 0 <= i < |switches| ==>
      switches[i].id in tables && forall n :: n in switches[i].neighbourSwitches ==> n in tables
  }

  /** Switch `from` floods its table to each of its neighbours in turn. */
  function FloodNeighbours(tables: Tables, from: int, neighbours: seq<int>): (r: Tables)
    requires from in tables && forall n :: n in neighbours ==> n in tables
    ensures r.Keys == tables.Keys
  {
    if neighbours == [] then tables
    else
      var prev := FloodNeighbours(tables, from, neighbours[..|neighbours| - 1]);
      RelaxInto(prev, from, neighbours[|neighbours| - 1])
  }

  /** Flooding to one more neighbour is one more relaxation. */
  lemma FloodNeighboursStep(tables: Tables, from: int, neighbours: seq<int>, j: nat)
    requires from in tables && forall n :: n in neighbours ==> n in tables
    requires j < |neighbours|
    ensures forall n :: n in neighbours[..j] ==> n in tables
    ensures FloodNeighbours(tables, from, neighbours[..j + 1])
            == RelaxInto(FloodNeighbours(tables, from, neighbours[..j]), from, neighbours[j])
  {
    assert neighbours[..j + 1][..j] == neighbours[..j];
  }

  /** One pass of the `while` body: every switch, in list order, floods to
      its neighbours; a switch sees the updates made earlier in the pass. */
  function Round(tables: Tables, switches: seq<Switch>): (r: Tables)
    requires Keyed(tables, switches)
    ensures r.Keys == tables.Keys
  {
    if switches == [] then tables
    else
      var prev := Round(tables, switches[..|switches| - 1]);
      var sw := switches[|switches| - 1];
      FloodNeighbours(prev, sw.id, sw.neighbourSwitches)
  }

  /** A pass over one more switch floods from that switch too. */
  lemma RoundStep(tables: Tables, switches: seq<Switch>, i: nat)
    requires Keyed(tables, switches) && i < |switches|
    ensures Keyed(tables, switches[..i]) && Keyed(tables, switches[..i + 1])
    ensures var prev := Round(tables, switches[..i]);
            var sw := switches[i];
            sw.id in prev && (forall n :: n in sw.neighbourSwitches ==> n in prev)
            && Round(tables, switches[..i + 1]) == FloodNeighbours(prev, sw.id, sw.neighbourSwitches)
  {
    assert switches[..i + 1][..i] == switches[..i];
  }

  /** The tables after n passes. */
  function Rounds(tables: Tables, switches: seq<Switch>, n: nat): (r: Tables)
    requires Keyed(tables, switches)
    ensures r.Keys == tables.Keys
  {
    if n == 0 then tables else Round(Rounds(tables, switches, n - 1), switches)
  }

  /** Flooding never removes an entry and never lengthens a route. */
  predicate Monotone(a: Tables, b: Tables)
  {
    a.Keys == b.Keys &&
    forall s :: s in a ==>
      a[s].Keys <= b[s].Keys && forall d :: d in a[s] ==> b[s][d].hops <= a[s][d].hops
  }

  lemma MonotoneTransitive(a: Tables, b: Tables, c: Tables)
    requires Monotone(a, b) && Monotone(b, c)
    ensures Monotone(a, c)
  {
  }

  lemma {:induction false} FloodNeighboursMonotone(tables: Tables, from: int, neighbours: seq<int>)
    requires from in tables && forall n :: n in neighbours ==> n in tables
    ensures Monotone(tables, FloodNeighbours(tables, from, neighbours))
  {
    if neighbours != [] {
      var prefix := neighbours[..|neighbours| - 1];
      FloodNeighboursMonotone(tables, from, prefix);
      var prev := FloodNeighbours(tables, from, prefix);
      MonotoneTransitive(tables, prev, RelaxInto(prev, from, neighbours[|neighbours| - 1]));
    }
  }

  lemma {:induction false} RoundMonotone(tables: Tables, switches: seq<Switch>)
    requires Keyed(tables, switches)
    ensures Monotone(tables, Round(tables, switches))
  {
    if switches != [] {
      var prefix := switches[..|switches| - 1];
      var sw := switches[|switches| - 1];
      assert Keyed(tables, prefix);
      RoundMonotone(tables, prefix);
      var prev := Round(tables, prefix);
      FloodNeighboursMonotone(prev, sw.id, sw.neighbourSwitches);
      MonotoneTransitive(tables, prev, Round(tables, switches));
    }
  }

  /** Being keyed depends only on the key set. */
  lemma KeyedSameKeys(a: Tables, b: Tables, switches: seq<Switch>)
    requires Keyed(a, switches) && a.Keys == b.Keys
    ensures Keyed(b, switches)
  {
    forall i | 0 <= i < |switches|
      ensures switches[i].id in b && forall n :: n in switches[i].neighbourSwitches ==> n in b
    {
      assert switches[i].id in a.Keys;
    }
  }

  /** However many passes run, no entry disappears and no hop count grows. */
  lemma {:induction false} RoundsMonotone(tables: Tables, switches: seq<Switch>, n: nat)
    requires Keyed(tables, switches)
    ensures Monotone(tables, Rounds(tables, switches, n))
  {
    if n > 0 {
      RoundsMonotone(tables, switches, n - 1);
      var prev := Rounds(tables, switches, n - 1);
      KeyedSameKeys(tables, prev, switches);
      RoundMonotone(prev, switches);
      MonotoneTransitive(tables, prev, Rounds(tables, switches, n));
    }
  }

  /** Every entry's next hop is joined by a link to the switch holding it. */
  predicate EntriesJoined(tables: Tables, links: seq<Link>)
  {
    forall s, d :: s in tables && d in tables[s] ==> Joined(links, s, tables[s][d].nextHop)
  }

  lemma JoinedSymmetric(links: seq<Link>, a: int, b: int)
    requires Joined(links, a, b)
    ensures Joined(links, b, a)
  {
    var i :| 0 <= i < |links| && Joins(links[i], a, b);
    assert Joins(links[i], b, a);
  }

  /** Flooding from a switch that a link joins to each of its neighbours
      keeps every next hop joined. */
  lemma {:induction false} FloodNeighboursJoined(tables: Tables, links: seq<Link>, from: int, neighbours: seq<int>)
    requires from in tables && forall n :: n in neighbours ==> n in tables
    requires forall n :: n in neighbours ==> Joined(links, from, n)
    requires EntriesJoined(tables, links)
    ensures EntriesJoined(FloodNeighbours(tables, from, neighbours), links)
  {
    if neighbours != [] {
      var prefix := neighbours[..|neighbours| - 1];
      var to := neighbours[|neighbours| - 1];
      FloodNeighboursJoined(tables, links, from, prefix);
      JoinedSymmetric(links, from, to);
    }
  }

  /** Every neighbour of every switch is joined to it by a link. */
  predicate NeighboursJoined(switches: seq<Switch>, links: seq<Link>)
  {
    forall i, n :: 0 <= i < |switches| && n in switches[i].neighbourSwitches ==> Joined(links, switches[i].id, n)
  }

  lemma {:induction false} RoundJoined(tables: Tables, switches: seq<Switch>, links: seq<Link>)
    requires Keyed(tables, switches) && NeighboursJoined(switches, links)
    requires EntriesJoined(tables, links)
    ensures EntriesJoined(Round(tables, switches), links)
  {
    if switches != [] {
      var prefix := switches[..|switches| - 1];
      var sw := switches[|switches| - 1];
      assert Keyed(tables, prefix);
      assert NeighboursJoined(prefix, links) by {
        assert forall i :: 0 <= i < |prefix| ==> prefix[i] == switches[i];
      }
      RoundJoined(tables, prefix, links);
      FloodNeighboursJoined(Round(tables, prefix), links, sw.id, sw.neighbourSwitches);
    }
  }

  /** Every pass keeps each next hop joined to its switch by a link. */
  lemma {:induction false} RoundsJoined(tables: Tables, switches: seq<Switch>, links: seq<Link>, n: nat)
    requires Keyed(tables, switches) && NeighboursJoined(switches, links)
    requires EntriesJoined(tables, links)
    ensures EntriesJoined(Rounds(tables, switches, n), links)
  {
    if n > 0 {
      RoundsJoined(tables, switches, links, n - 1);
      RoundJoined(Rounds(tables, switches, n - 1), switches, links);
    }
  }

  // ---------------------------------------------------------------------
  // Seeding: the first loop of calculateRoutingTables

  /** Each adjacent fog device at 0 hops, as its own next hop. */
  function SeedFogDevices(t: Table, adjacent: seq<int>): Table
  {
    if adjacent == [] then t
    else
      var d := adjacent[|adjacent| - 1];
      SeedFogDevices(t, adjacent[..|adjacent| - 1])[d := Entry(d, 0)]
  }

  lemma {:induction false} SeedFogDevicesEntries(t: Table, adjacent: seq<int>)
    ensures var r := SeedFogDevices(t, adjacent);
            && (forall d :: d in r <==> d in t || d in adjacent)
            && (forall d :: d in adjacent ==> r[d] == Entry(d, 0))
            && (forall d :: d in t && d !in adjacent ==> r[d] == t[d])
  {
    if adjacent != [] {
      SeedFogDevicesEntries(t, adjacent[..|adjacent| - 1]);
    }
  }

  /** Each actuator of end device `dev` at 0 hops, with `dev` as next hop. */
  function SeedActuators(t: Table, dev: int, actuators: seq<int>): Table
  {
    if actuators == [] then t
    else SeedActuators(t, dev, actuators[..|actuators| - 1])[actuators[|actuators| - 1] := Entry(dev, 0)]
  }

  lemma {:induction false} SeedActuatorsEntries(t: Table, dev: int, actuators: seq<int>)
    ensures var r := SeedActuators(t, dev, actuators);
            && (forall a :: a in r <==> a in t || a in actuators)
            && (forall a :: a in actuators ==> r[a] == Entry(dev, 0))
            && (forall a :: a in t && a !in actuators ==> r[a] == t[a])
  {
    if actuators != [] {
      SeedActuatorsEntries(t, dev, actuators[..|actuators| - 1]);
    }
  }

  /** The end device `getEndDevice(id)` returns, for a registered id. */
  function FoundEndDevice(endDevices: seq<EndDevice>, id: int): (e: EndDevice)
    requires id in EndDeviceIds(endDevices)
    ensures e in endDevices && e.id == id
  {
    endDevices[LastEndDeviceWithId(endDevices, id).value]
  }

  predicate Registered(endDevices: seq<EndDevice>, ids: seq<int>)
  {
    forall e :: e in ids ==> e in EndDeviceIds(endDevices)
  }

  /** The actuators of each adjacent end device, in order, later puts
      overwriting earlier ones. */
  function SeedEndDevices(t: Table, endDevices: seq<EndDevice>, adjacent: seq<int>): Table
    requires Registered(endDevices, adjacent)
  {
    if adjacent == [] then t
    else
      var dev := FoundEndDevice(endDevices, adjacent[|adjacent| - 1]);
      SeedActuators(SeedEndDevices(t, endDevices, adjacent[..|adjacent| - 1]), dev.id, dev.actuators)
  }

  /** An entry the end-device seeding puts for actuator `a`: 0 hops, via
      an adjacent end device that has that actuator. */
  predicate ViaEndDevice(endDevices: seq<EndDevice>, adjacent: seq<int>, a: int, x: Entry)
  {
    && x.hops == 0 && x.nextHop in adjacent && x.nextHop in EndDeviceIds(endDevices)
    && a in FoundEndDevice(endDevices, x.nextHop).actuators
  }

  /** The end-device seeding: every actuator of every adjacent end device
      becomes a destination via an adjacent end device that has it; every
      other entry is the one it had before. */
  lemma {:induction false} SeedEndDevicesEntries(t: Table, endDevices: seq<EndDevice>, adjacent: seq<int>)
    requires Registered(endDevices, adjacent)
    ensures var r := SeedEndDevices(t, endDevices, adjacent);
            && (forall e, a :: e in adjacent && a in FoundEndDevice(endDevices, e).actuators ==>
                  a in r && ViaEndDevice(endDevices, adjacent, a, r[a]))
            && (forall a :: a in r ==> ViaEndDevice(endDevices, adjacent, a, r[a]) || (a in t && r[a] == t[a]))
            && (forall a :: a in t ==> a in r)
            && (forall a :: a in t && (forall e :: e in adjacent ==> a !in FoundEndDevice(endDevices, e).actuators)
                  ==> r[a] == t[a])
  {
    if adjacent != [] {
      var prefix := adjacent[..|adjacent| - 1];
      var last := adjacent[|adjacent| - 1];
      assert Registered(endDevices, prefix);
      SeedEndDevicesEntries(t, endDevices, prefix);
      var rp := SeedEndDevices(t, endDevices, prefix);
      var dev := FoundEndDevice(endDevices, last);
      var r := SeedActuators(rp, dev.id, dev.actuators);
      SeedActuatorsEntries(rp, dev.id, dev.actuators);
      assert r == SeedEndDevices(t, endDevices, adjacent);
      forall a | a in r ensures ViaEndDevice(endDevices, adjacent, a, r[a]) || (a in t && r[a] == t[a]) {
        if a in dev.actuators {
          assert ViaEndDevice(endDevices, adjacent, a, r[a]);
        } else if ViaEndDevice(endDevices, prefix, a, rp[a]) {
          assert ViaEndDevice(endDevices, adjacent, a, r[a]);
        }
      }
      forall e, a | e in adjacent && a in FoundEndDevice(endDevices, e).actuators
        ensures a in r && ViaEndDevice(endDevices, adjacent, a, r[a])
      {
        if a !in dev.actuators {
          if e == last {
            assert false;
          }
          assert e in prefix;
          assert ViaEndDevice(endDevices, prefix, a, rp[a]);
        }
      }
    }
  }

  /** The table seeded for one switch. */
  function SeedTable(sw: Switch, endDevices: seq<EndDevice>): Table
    requires Registered(endDevices, sw.adjacentEndDevices)
  {
    SeedEndDevices(SeedFogDevices(map[], sw.adjacentEntities), endDevices, sw.adjacentEndDevices)
  }

  /** A seeded table: every entry is 0 hops away; every adjacent fog device
      is a destination, via itself unless an adjacent end device has an
      actuator with the same id; every actuator of an adjacent end device is
      a destination, via an adjacent end device that has it; and the next hop
      of every entry is an adjacent fog device or end device. */
  lemma SeedTableEntries(sw: Switch, endDevices: seq<EndDevice>)
    requires Registered(endDevices, sw.adjacentEndDevices)
    ensures var t := SeedTable(sw, endDevices);
            && (forall d :: d in t ==> t[d].hops == 0)
            && (forall d :: d in t ==> t[d].nextHop in sw.adjacentEntities || t[d].nextHop in sw.adjacentEndDevices)
            && (forall d :: d in sw.adjacentEntities ==> d in t)
            && (forall d :: d in sw.adjacentEntities
                  && (forall e :: e in sw.adjacentEndDevices ==> d !in FoundEndDevice(endDevices, e).actuators)
                  ==> t[d] == Entry(d, 0))
            && (forall e, a :: e in sw.adjacentEndDevices && a in FoundEndDevice(endDevices, e).actuators ==>
                  a in t && t[a].nextHop in sw.adjacentEndDevices
                  && a in FoundEndDevice(endDevices, t[a].nextHop).actuators)
  {
    var fogs := SeedFogDevices(map[], sw.adjacentEntities);
    SeedFogDevicesEntries(map[], sw.adjacentEntities);
    SeedEndDevicesEntries(fogs, endDevices, sw.adjacentEndDevices);
  }

  /** Every switch's adjacent end devices are registered. */
  predicate AllRegistered(switches: seq<Switch>, endDevices: seq<EndDevice>)
  {
    forall i :: 0 <= i < |switches| ==> Registered(endDevices, switches[i].adjacentEndDevices)
  }

  /** The tables after seeding: one per switch id; a later switch with the
      same id replaces the table of an earlier one. */
  function InitialTables(switches: seq<Switch>, endDevices: seq<EndDevice>): (r: Tables)
    requires AllRegistered(switches, endDevices)
    ensures r.Keys == SwitchIds(switches)
  {
    if switches == [] then map[]
    else
      var sw := switches[|switches| - 1];
      var prefix := switches[..|switches| - 1];
      assert SwitchIds(switches) == SwitchIds(prefix) + {sw.id} by {
        assert forall i :: 0 <= i < |prefix| ==> prefix[i] == switches[i];
      }
      InitialTables(prefix, endDevices)[sw.id := SeedTable(sw, endDevices)]
  }

  /** The seeded table of each switch id is that of the last switch with the id. */
  lemma {:induction false} InitialTablesLookup(switches: seq<Switch>, endDevices: seq<EndDevice>, id: int)
    requires AllRegistered(switches, endDevices) && id in SwitchIds(switches)
    ensures var i := LastSwitchWithId(switches, id).value;
            InitialTables(switches, endDevices)[id] == SeedTable(switches[i], endDevices)
  {
    var prefix := switches[..|switches| - 1];
    if switches[|switches| - 1].id != id {
      assert AllRegistered(prefix, endDevices) by {
        assert forall i :: 0 <= i < |prefix| ==> prefix[i] == switches[i];
      }
      assert id in SwitchIds(prefix) by {
        var i :| 0 <= i < |switches| && switches[i].id == id;
        assert prefix[i] == switches[i];
      }
      InitialTablesLookup(prefix, endDevices, id);
    }
  }

  /** When every attached entity is joined to its switch by a link, so is
      the next hop of every seeded entry. */
  lemma InitialTablesJoined(switches: seq<Switch>, links: seq<Link>, endDevices: seq<EndDevice>)
    requires AllRegistered(switches, endDevices)
    requires SwitchesSound(switches, links, EndDeviceIds(endDevices))
    ensures EntriesJoined(InitialTables(switches, endDevices), links)
  {
    var t: Tables := InitialTables(switches, endDevices);
    forall s: int, d: int | s in t && d in t[s] ensures Joined(links, s, t[s][d].nextHop) {
      InitialTablesLookup(switches, endDevices, s);
      var i := LastSwitchWithId(switches, s).value;
      SeedTableEntries(switches[i], endDevices);
      assert SwitchSound(switches[i], SwitchIds(switches), links, EndDeviceIds(endDevices));
    }
  }

  // ---------------------------------------------------------------------
  // isRoutingConverged

  /** Every table holds at least numNodes destinations. */
  predicate Converged(tables: Tables, numNodes: int)
  {
    forall s :: s in tables ==> |tables[s]| >= numNodes
  }

  /** The summed lengths of the end devices' actuator lists. */
  function TotalActuators(endDevices: seq<EndDevice>): nat
  {
    if endDevices == [] then 0
    else TotalActuators(endDevices[1..]) + |endDevices[0].actuators|
  }

  /** The sum can also be taken from the back. */
  lemma {:induction false} TotalActuatorsLast(endDevices: seq<EndDevice>)
    requires endDevices != []
    ensures TotalActuators(endDevices)
            == TotalActuators(endDevices[..|endDevices| - 1]) + |endDevices[|endDevices| - 1].actuators|
  {
    if |endDevices| > 1 {
      TotalActuatorsLast(endDevices[1..]);
      assert endDevices[1..][..|endDevices| - 2] == endDevices[..|endDevices| - 1][1..];
    }
  }

  /** `getActuators()`: the actuators of all end devices, in list order. It
      holds the actuators of the end devices and nothing else, one copy per
      occurrence in an actuator list. */
  function AllActuators(endDevices: seq<EndDevice>): (r: seq<int>)
    ensures forall i, a :: 0 <= i < |endDevices| && a in endDevices[i].actuators ==> a in r
    ensures forall a :: a in r ==> exists i :: 0 <= i < |endDevices| && a in endDevices[i].actuators
    ensures |r| == TotalActuators(endDevices)
  {
    if endDevices == [] then []
    else
      TotalActuatorsLast(endDevices);
      AllActuators(endDevices[..|endDevices| - 1]) + endDevices[|endDevices| - 1].actuators
  }

  // ---------------------------------------------------------------------
  // The switching-table loop

  /** Destination -> id of the first link joining the switch and the
      entry's next hop, for the entries where such a link exists. */
  function SwitchingEntries(t: Table, links: seq<Link>, swId: int): (m: map<int, int>)
    ensures forall d :: d in m <==> d in t && Joined(links, swId, t[d].nextHop)
  {
    map d | d in t && FirstJoiningLink(links, swId, t[d].nextHop).Some? ::
      links[FirstJoiningLink(links, swId, t[d].nextHop).value].id
  }

  /** The destinations for which the source logs "link not found". */
  function Unlinked(t: Table, links: seq<Link>, swId: int): (u: set<int>)
    ensures forall d :: d in u <==> d in t && !Joined(links, swId, t[d].nextHop)
  {
    set d | d in t && FirstJoiningLink(links, swId, t[d].nextHop).None?
  }

  /** Every switch with the switching entries of its routing table. */
  function WithSwitching(switches: seq<Switch>, tables: Tables, links: seq<Link>): (r: seq<Switch>)
    requires forall i :: 0 <= i < |switches| ==> switches[i].id in tables
    ensures |r| == |switches|
    ensures forall i :: 0 <= i < |r| ==> r[i] == switches[i].(switchingTable := r[i].switchingTable)
    ensures forall i, d :: 0 <= i < |r| ==>
              (d in r[i].switchingTable <==>
                 d in switches[i].switchingTable
                 || (d in tables[switches[i].id] && Joined(links, switches[i].id, tables[switches[i].id][d].nextHop)))
  {
    seq(|switches|, i requires 0 <= i < |switches| =>
      switches[i].(switchingTable := switches[i].switchingTable
                                     + SwitchingEntries(tables[switches[i].id], links, switches[i].id)))
  }

  /** When every next hop is joined to its switch, no destination goes
      unlinked: each gets the id of the first link, in list order, between
      the switch and the next hop, whichever endpoint that link names first. */
  lemma SwitchingComplete(tables: Tables, links: seq<Link>, swId: int)
    requires swId in tables && EntriesJoined(tables, links)
    ensures Unlinked(tables[swId], links, swId) == {}
    ensures SwitchingEntries(tables[swId], links, swId).Keys == tables[swId].Keys
    ensures forall d :: d in tables[swId] ==>
              var i := FirstJoiningLink(links, tables[swId][d].nextHop, swId).value;
              Joins(links[i], swId, tables[swId][d].nextHop)
              && SwitchingEntries(tables[swId], links, swId)[d] == links[i].id
  {
    var t := tables[swId];
    forall d | d in t
      ensures Joined(links, swId, t[d].nextHop)
      ensures FirstJoiningLink(links, t[d].nextHop, swId) == FirstJoiningLink(links, swId, t[d].nextHop)
    {
      FirstJoiningLinkSymmetric(links, swId, t[d].nextHop);
    }
    assert forall d :: d !in Unlinked(t, links, swId);
  }

  // ---------------------------------------------------------------------
  // Where next hops come from

  /** h is a next hop switch s can use: a fog or end device attached to s,
      or a switch that lists s among its neighbours (and so floods to s). */
  predicate LocalHop(switches: seq<Switch>, s: int, h: int)
  {
    exists i :: 0 <= i < |switches| &&
      ((switches[i].id == s && (h in switches[i].adjacentEntities || h in switches[i].adjacentEndDevices))
       || (switches[i].id == h && s in switches[i].neighbourSwitches))
  }

  predicate EntriesLocal(tables: Tables, switches: seq<Switch>)
  {
    forall s, d :: s in tables && d in tables[s] ==> LocalHop(switches, s, tables[s][d].nextHop)
  }

  /** Seeded entries point at devices attached to the switch. */
  lemma InitialTablesLocal(switches: seq<Switch>, endDevices: seq<EndDevice>)
    requires AllRegistered(switches, endDevices)
    ensures EntriesLocal(InitialTables(switches, endDevices), switches)
  {
    var t: Tables := InitialTables(switches, endDevices);
    forall s: int, d: int | s in t && d in t[s] ensures LocalHop(switches, s, t[s][d].nextHop) {
      InitialTablesLookup(switches, endDevices, s);
      var i := LastSwitchWithId(switches, s).value;
      SeedTableEntries(switches[i], endDevices);
    }
  }

  /** Flooding from switch sws to some of its neighbours gives each new
      entry sws as next hop, which lists the receiving switch as neighbour. */
  lemma {:induction false} FloodNeighboursLocal(tables: Tables, switches: seq<Switch>, k: nat, neighbours: seq<int>)
    requires k < |switches|
    requires switches[k].id in tables && forall n :: n in neighbours ==> n in tables
    requires forall n :: n in neighbours ==> n in switches[k].neighbourSwitches
    requires EntriesLocal(tables, switches)
    ensures EntriesLocal(FloodNeighbours(tables, switches[k].id, neighbours), switches)
  {
    if neighbours != [] {
      FloodNeighboursLocal(tables, switches, k, neighbours[..|neighbours| - 1]);
    }
  }

  /** A pass over switches taken from `switches` keeps next hops local. */
  lemma {:induction false} RoundLocal(tables: Tables, sws: seq<Switch>, switches: seq<Switch>)
    requires Keyed(tables, sws)
    requires forall i :: 0 <= i < |sws| ==> sws[i] in switches
    requires EntriesLocal(tables, switches)
    ensures EntriesLocal(Round(tables, sws), switches)
  {
    if sws != [] {
      var prefix := sws[..|sws| - 1];
      var sw := sws[|sws| - 1];
      assert Keyed(tables, prefix);
      assert forall i :: 0 <= i < |prefix| ==> prefix[i] == sws[i];
      RoundLocal(tables, prefix, switches);
      var k :| 0 <= k < |switches| && switches[k] == sw;
      FloodNeighboursLocal(Round(tables, prefix), switches, k, sw.neighbourSwitches);
    }
  }

  /** However many passes run, every entry's next hop is a device attached
      to its switch or a switch that floods to it. */
  lemma {:induction false} RoundsLocal(tables: Tables, switches: seq<Switch>, n: nat)
    requires Keyed(tables, switches)
    requires EntriesLocal(tables, switches)
    ensures EntriesLocal(Rounds(tables, switches, n), switches)
  {
    if n > 0 {
      RoundsLocal(tables, switches, n - 1);
      RoundLocal(Rounds(tables, switches, n - 1), switches, switches);
    }
  }

  // ---------------------------------------------------------------------
  // What the imperative loops need

  /** A non-empty key set has a key to take next. */
  lemma SomeMember(s: set<int>)
    requires s != {}
    ensures exists x :: x in s
  {
    assert (forall x :: x !in s) ==> s == {};
  }

  /** The part of a table whose destinations are in ks. */
  function Restrict(t: Table, ks: set<int>): (r: Table)
    ensures r.Keys == t.Keys * ks
  {
    map d | d in t && d in ks :: t[d]
  }

  /** Relaxing with one more destination of the source is one more
      `updateRoutingTable` call. */
  lemma RelaxedStep(target: Table, src: Table, via: int, done: set<int>, dst: int)
    requires dst in src && dst !in done
    ensures Relaxed(target, Restrict(src, done + {dst}), via)
            == Update(Relaxed(target, Restrict(src, done), via), dst, via, src[dst].hops + 1)
  {
    var a := Relaxed(target, Restrict(src, done + {dst}), via);
    var b := Update(Relaxed(target, Restrict(src, done), via), dst, via, src[dst].hops + 1);
    assert a.Keys == b.Keys;
    forall d | d in a ensures a[d] == b[d] {
      RelaxedStepAt(target, src, via, done, dst, d);
    }
  }

  /** RelaxedStep, one destination at a time. */
  lemma RelaxedStepAt(target: Table, src: Table, via: int, done: set<int>, dst: int, d: int)
    requires dst in src && dst !in done
    requires d in target || (d in src && d in done + {dst})
    ensures var a := Relaxed(target, Restrict(src, done + {dst}), via);
            var b := Update(Relaxed(target, Restrict(src, done), via), dst, via, src[dst].hops + 1);
            d in a && d in b && a[d] == b[d]
  {
    var small := Restrict(src, done);
    var big := Restrict(src, done + {dst});
    if d == dst {
      assert big[d] == src[d];
    } else {
      assert (d in big) == (d in small);
      assert d in small ==> big[d] == small[d];
    }
  }

  lemma RelaxedNothing(target: Table, src: Table, via: int)
    ensures Relaxed(target, Restrict(src, {}), via) == target
  {
    assert Relaxed(target, Restrict(src, {}), via).Keys == target.Keys;
  }

  /** Switching entries for one more destination: one more put, or none
      when no link joins the switch and the next hop. */
  lemma SwitchingEntriesGrow(t: Table, links: seq<Link>, swId: int, done: set<int>, dst: int)
    requires dst in t && dst !in done
    ensures var a := SwitchingEntries(Restrict(t, done), links, swId);
            var li := FirstJoiningLink(links, swId, t[dst].nextHop);
            SwitchingEntries(Restrict(t, done + {dst}), links, swId)
              == if li.Some? then a[dst := links[li.value].id] else a
  {
    var a := SwitchingEntries(Restrict(t, done), links, swId);
    var b := SwitchingEntries(Restrict(t, done + {dst}), links, swId);
    var li := FirstJoiningLink(links, swId, t[dst].nextHop);
    var c := if li.Some? then a[dst := links[li.value].id] else a;
    assert b.Keys == c.Keys;
    forall d | d in b ensures b[d] == c[d] {
      SwitchingEntriesGrowAt(t, links, swId, done, dst, d);
    }
  }

  /** SwitchingEntriesGrow, one destination at a time. */
  lemma SwitchingEntriesGrowAt(t: Table, links: seq<Link>, swId: int, done: set<int>, dst: int, d: int)
    requires dst in t && dst !in done
    requires d in SwitchingEntries(Restrict(t, done + {dst}), links, swId)
    ensures var a := SwitchingEntries(Restrict(t, done), links, swId);
            var li := FirstJoiningLink(links, swId, t[dst].nextHop);
            var c := if li.Some? then a[dst := links[li.value].id] else a;
            d in c && SwitchingEntries(Restrict(t, done + {dst}), links, swId)[d] == c[d]
  {
    assert Restrict(t, done + {dst})[d] == t[d];
    if d != dst {
      assert Restrict(t, done)[d] == t[d];
    }
  }

  /** Adding an entry after a merge is merging the updated map. */
  lemma MergeUpdate(m: map<int, int>, a: map<int, int>, k: int, v: int)
    ensures m + a[k := v] == (m + a)[k := v]
  {
    assert (m + a[k := v]).Keys == ((m + a)[k := v]).Keys;
  }

  lemma SwitchingEntriesNothing(m: map<int, int>, t: Table, links: seq<Link>, swId: int)
    ensures m + SwitchingEntries(Restrict(t, {}), links, swId) == m
  {
    assert (m + SwitchingEntries(Restrict(t, {}), links, swId)).Keys == m.Keys;
  }

  /** With every neighbour a registered switch, the seeded tables give a
      table to every switch and every neighbour. */
  lemma InitialTablesKeyed(switches: seq<Switch>, links: seq<Link>, endDevices: seq<EndDevice>)
    requires AllRegistered(switches, endDevices)
    requires SwitchesSound(switches, links, EndDeviceIds(endDevices))
    ensures Keyed(InitialTables(switches, endDevices), switches)
  {
    forall i | 0 <= i < |switches| ensures switches[i].id in SwitchIds(switches) {
    }
  }

  /** Soundness gives what the routing loop needs. */
  lemma SoundSwitchesRoute(switches: seq<Switch>, links: seq<Link>, endDevices: seq<EndDevice>)
    requires SwitchesSound(switches, links, EndDeviceIds(endDevices))
    ensures AllRegistered(switches, endDevices)
    ensures NeighboursJoined(switches, links)
  {
  }

  /** Building the switching tables keeps the switches sound. */
  lemma WithSwitchingSound(switches: seq<Switch>, tables: Tables, links: seq<Link>, endIds: set<int>)
    requires forall i :: 0 <= i < |switches| ==> switches[i].id in tables
    requires SwitchesSound(switches, links, endIds)
    ensures SwitchesSound(WithSwitching(switches, tables, links), links, endIds)
  {
    var r := WithSwitching(switches, tables, links);
    SameIdsSwitchIds(switches, r);
    assert forall i :: 0 <= i < |r| ==> SwitchSound(switches[i], SwitchIds(switches), links, endIds);
  }

  /** The `while` loop of calculateRoutingTables, cut off at maxRounds
      passes: the number of passes it makes from `init` once `rounds` passes
      are behind it, i.e. the first pass count from `rounds` on whose tables
      converged, or maxRounds. */
  function Converge(init: Tables, switches: seq<Switch>, numNodes: int, rounds: nat, maxRounds: nat): nat
    requires Keyed(init, switches)
    decreases maxRounds - rounds
  {
    if Converged(Rounds(init, switches, rounds), numNodes) || rounds >= maxRounds then rounds
    else Converge(init, switches, numNodes, rounds + 1, maxRounds)
  }

  /** The loop stops within the cut-off, and stops early only on tables that
      converged. */
  lemma {:induction false} ConvergeBounds(init: Tables, switches: seq<Switch>, numNodes: int, rounds: nat, maxRounds: nat)
    requires Keyed(init, switches) && rounds <= maxRounds
    ensures var r := Converge(init, switches, numNodes, rounds, maxRounds);
            rounds <= r <= maxRounds && (!Converged(Rounds(init, switches, r), numNodes) ==> r == maxRounds)
    decreases maxRounds - rounds
  {
    if !Converged(Rounds(init, switches, rounds), numNodes) && rounds < maxRounds {
      ConvergeBounds(init, switches, numNodes, rounds + 1, maxRounds);
    }
  }

  /** The loop stops at the FIRST converged pass count: no earlier tables
      converged. */
  lemma {:induction false} ConvergeFirst(init: Tables, switches: seq<Switch>, numNodes: int, rounds: nat, maxRounds: nat, n: nat)
    requires Keyed(init, switches)
    requires rounds <= n < Converge(init, switches, numNodes, rounds, maxRounds)
    ensures !Converged(Rounds(init, switches, n), numNodes)
    decreases maxRounds - rounds
  {
    var stop := Converged(Rounds(init, switches, rounds), numNodes) || rounds >= maxRounds;
    assert Converge(init, switches, numNodes, rounds, maxRounds)
        == if stop then rounds else Converge(init, switches, numNodes, rounds + 1, maxRounds);
    if n > rounds {
      ConvergeFirst(init, switches, numNodes, rounds + 1, maxRounds, n);
    }
  }

  /** `numNodes`: the number of fog devices plus the number of actuators. */
  function NumNodes(fogDevices: seq<FogDevice>, endDevices: seq<EndDevice>): (n: int)
    ensures n == |fogDevices| + TotalActuators(endDevices)
  {
    |fogDevices| + |AllActuators(endDevices)|
  }
}
