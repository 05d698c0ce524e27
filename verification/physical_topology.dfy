/** `PhysicalTopology`: the registry of fog devices, end devices, switches
    and links, and the set-up that attaches devices to switches, finds
    neighbour switches and computes the switching tables. The Java lists
    are sequence fields; the objects in them are values, and an in-place
    update of one object is an update of its position in the sequence. */
module Network {
  import opened Wrappers
  import opened Topology
  import opened Routing
  import opened ShortestHops

  class PhysicalTopology {
    var fogDevices: seq<FogDevice>
    var endDevices: seq<EndDevice>
    var switches: seq<Switch>
    var links: seq<Link>

    /** What registration and set-up keep true: link ids are distinct, every
        device's link id names a link touching it, and every switch lists
        only entities a link joins to it. */
    ghost predicate Valid()
      reads this
    {
      && DistinctLinkIds(links)
      && (forall i :: 0 <= i < |fogDevices| ==> LinkIdSound(links, fogDevices[i].id, fogDevices[i].linkId))
      && (forall i :: 0 <= i < |endDevices| ==> LinkIdSound(links, endDevices[i].id, endDevices[i].linkId))
      && SwitchesSound(switches, links, EndDeviceIds(endDevices))
    }

    /** An empty topology. */
    constructor ()
      ensures Valid()
      ensures fogDevices == [] && endDevices == [] && switches == [] && links == []
    {
      fogDevices, endDevices, switches, links := [], [], [], [];
    }

    // -------------------------------------------------------------------
    // Registration

    /** `addLink`: a link from e1 (north) to e2 (south). Link ids come from
        a global id generator, so a new link's id is fresh. */
    method AddLink(id: int, e1: int, e2: int)
      requires Valid()
      requires forall i :: 0 <= i < |links| ==> links[i].id != id
      modifies this
      ensures Valid()
      ensures links == old(links) + [Link(id, e1, e2)]
      ensures fogDevices == old(fogDevices) && endDevices == old(endDevices) && switches == old(switches)
    {
      var l := Link(id, e1, e2);
      forall i | 0 <= i < |fogDevices| ensures LinkIdSound(links + [l], fogDevices[i].id, fogDevices[i].linkId) {
        LinkIdSoundAppend(links, l, fogDevices[i].id, fogDevices[i].linkId);
      }
      forall i | 0 <= i < |endDevices| ensures LinkIdSound(links + [l], endDevices[i].id, endDevices[i].linkId) {
        LinkIdSoundAppend(links, l, endDevices[i].id, endDevices[i].linkId);
      }
      SwitchesSoundGrow(switches, links, EndDeviceIds(endDevices), switches, links + [l], EndDeviceIds(endDevices));
      links := links + [l];
    }

    /** `addFogDevice`: the device has no link yet. */
    method AddFogDevice(id: int)
      requires Valid()
      modifies this
      ensures Valid()
      ensures fogDevices == old(fogDevices) + [FogDevice(id, None)]
      ensures endDevices == old(endDevices) && switches == old(switches) && links == old(links)
    {
      fogDevices := fogDevices + [FogDevice(id, None)];
    }

    /** `addEndDevice`: the device has no link yet. */
    method AddEndDevice(id: int, actuators: seq<int>)
      requires Valid()
      modifies this
      ensures Valid()
      ensures endDevices == old(endDevices) + [EndDevice(id, None, actuators)]
      ensures fogDevices == old(fogDevices) && switches == old(switches) && links == old(links)
    {
      var endDevices' := endDevices + [EndDevice(id, None, actuators)];
      assert EndDeviceIds(endDevices) <= EndDeviceIds(endDevices') by {
        forall x | x in EndDeviceIds(endDevices) ensures x in EndDeviceIds(endDevices') {
          var i :| 0 <= i < |endDevices| && endDevices[i].id == x;
          assert endDevices'[i] == endDevices[i];
        }
      }
      SwitchesSoundGrow(switches, links, EndDeviceIds(endDevices), switches, links, EndDeviceIds(endDevices'));
      endDevices := endDevices';
    }

    /** `addSwitch`: a switch with nothing attached yet. */
    method AddSwitch(id: int)
      requires Valid()
      modifies this
      ensures Valid()
      ensures switches == old(switches) + [NewSwitch(id)]
      ensures fogDevices == old(fogDevices) && endDevices == old(endDevices) && links == old(links)
    {
      SwitchesSoundGrow(switches, links, EndDeviceIds(endDevices), switches + [NewSwitch(id)], links, EndDeviceIds(endDevices));
      switches := switches + [NewSwitch(id)];
    }

    // -------------------------------------------------------------------
    // Lookups

    /** `getSwitch(id)`: the position of the last switch with the id. */
    method GetSwitch(id: int) returns (r: Option<nat>)
      ensures r == LastSwitchWithId(switches, id)
    {
      r := None;
      var i := 0;
      while i < |switches|
        invariant 0 <= i <= |switches|
        invariant r == LastSwitchWithId(switches[..i], id)
      {
        assert switches[..i + 1][..i] == switches[..i];
        if switches[i].id == id {
          r := Some(i);
        }
        i := i + 1;
      }
      assert switches[..i] == switches;
    }

    /** `getLink(id)`: the position of the last link with the id. */
    method GetLinkById(id: int) returns (r: Option<nat>)
      ensures r == LastLinkWithId(links, id)
    {
      r := None;
      var i := 0;
      while i < |links|
        invariant 0 <= i <= |links|
        invariant r == LastLinkWithId(links[..i], id)
      {
        assert links[..i + 1][..i] == links[..i];
        if links[i].id == id {
          r := Some(i);
        }
        i := i + 1;
      }
      assert links[..i] == links;
    }

    /** `getEndDevice(id)`: the position of the last end device with the id. */
    method GetEndDevice(id: int) returns (r: Option<nat>)
      ensures r == LastEndDeviceWithId(endDevices, id)
    {
      r := None;
      var i := 0;
      while i < |endDevices|
        invariant 0 <= i <= |endDevices|
        invariant r == LastEndDeviceWithId(endDevices[..i], id)
      {
        assert endDevices[..i + 1][..i] == endDevices[..i];
        if endDevices[i].id == id {
          r := Some(i);
        }
        i := i + 1;
      }
      assert endDevices[..i] == endDevices;
    }

    /** `getLink(e1, e2)`: the position of the first link joining the two
        endpoints, `None` where the source returns null. */
    method GetLinkBetween(e1: int, e2: int) returns (r: Option<nat>)
      ensures r == FirstJoiningLink(links, e1, e2)
    {
      var i := 0;
      while i < |links|
        invariant 0 <= i <= |links|
        invariant forall j :: 0 <= j < i ==> !Joins(links[j], e1, e2)
      {
        if Joins(links[i], e1, e2) {
          return Some(i);
        }
        i := i + 1;
      }
      return None;
    }

    /** `getActuators()`: the actuators of every end device, in list order. */
    method GetActuators() returns (r: seq<int>)
      ensures r == AllActuators(endDevices)
    {
      r := [];
      var i := 0;
      while i < |endDevices|
        invariant 0 <= i <= |endDevices|
        invariant r == AllActuators(endDevices[..i])
      {
        assert endDevices[..i + 1][..i] == endDevices[..i];
        var d := endDevices[i];
        var j := 0;
        while j < |d.actuators|
          invariant 0 <= j <= |d.actuators|
          invariant r == AllActuators(endDevices[..i]) + d.actuators[..j]
        {
          r := r + [d.actuators[j]];
          j := j + 1;
        }
        assert d.actuators[..j] == d.actuators;
        i := i + 1;
      }
      assert endDevices[..i] == endDevices;
    }

    // -------------------------------------------------------------------
    // validateTopology

    /** `validateTopology`: true exactly when no link is a self-loop and no
        fog device occurs more than once among the link endpoints. */
    method ValidateTopology() returns (valid: bool)
      ensures valid == ValidTopology(FogIds(fogDevices), links)
    {
      var counts := ZeroCounts();
      var fogIds := FogIds(fogDevices);
      var i := 0;
      while i < |links|
        invariant 0 <= i <= |links|
        invariant counts.Keys == fogIds
        invariant NoSelfLoops(links[..i])
        invariant forall f :: f in fogIds ==> counts[f] == EndpointCount(links[..i], f) <= 1
      {
        var l := links[i];
        assert links[..i + 1][..i] == links[..i];
        if l.north == l.south {
          assert !NoSelfLoops(links);
          return false;
        }
        if l.north in counts {
          if counts[l.north] == 1 {
            EndpointCountPrefix(links, i + 1, l.north);
            return false;
          }
          counts := counts[l.north := 1];
        }
        if l.south in counts {
          if counts[l.south] == 1 {
            EndpointCountPrefix(links, i + 1, l.south);
            return false;
          }
          counts := counts[l.south := 1];
        }
        i := i + 1;
      }
      assert links[..i] == links;
      return true;
    }
  
    /** The first loop of `validateTopology`: a count of zero for every
        fog device. */
    method ZeroCounts() returns (counts: map<int, int>)
      ensures counts.Keys == FogIds(fogDevices)
      ensures forall f :: f in counts ==> counts[f] == 0
    {
      counts := map[];
      var i := 0;
      while i < |fogDevices|
        invariant 0 <= i <= |fogDevices|
        invariant counts.Keys == FogIds(fogDevices[..i])
        invariant forall f :: f in counts ==> counts[f] == 0
      {
        assert fogDevices[..i + 1] == fogDevices[..i] + [fogDevices[i]];
        counts := counts[fogDevices[i].id := 0];
        i := i + 1;
      }
      assert fogDevices[..i] == fogDevices;
    }

    // -------------------------------------------------------------------
    // assignLinksToFogDevices / assignLinksToEndDevices

    /** The inner loop of `assignLinksTo*`: each link touching the device
        overwrites its link id, so the last such link wins. */
    method AssignedLink(dev: int, current: Option<int>) returns (linkId: Option<int>)
      ensures linkId == AssignedLinkId(links, dev, current)
    {
      linkId := current;
      var j := 0;
      while j < |links|
        invariant 0 <= j <= |links|
        invariant linkId == AssignedLinkId(links[..j], dev, current)
      {
        assert links[..j + 1][..j] == links[..j];
        if links[j].north == dev || links[j].south == dev {
          linkId := Some(links[j].id);
        }
        j := j + 1;
      }
      assert links[..j] == links;
    }

    /** `assignLinksToFogDevices`: every fog device takes the id of the last
        link touching it and keeps its old link id when no link does. */
    method AssignLinksToFogDevices()
      requires Valid()
      modifies this
      ensures Valid()
      ensures |fogDevices| == |old(fogDevices)|
      ensures forall i :: 0 <= i < |fogDevices| ==>
                fogDevices[i] == old(fogDevices[i]).(linkId := AssignedLinkId(links, old(fogDevices[i]).id, old(fogDevices[i]).linkId))
      ensures endDevices == old(endDevices) && switches == old(switches) && links == old(links)
    {
      var i := 0;
      while i < |fogDevices|
        invariant 0 <= i <= |fogDevices| == |old(fogDevices)|
        invariant Valid()
        invariant forall k :: 0 <= k < i ==>
                    fogDevices[k] == old(fogDevices[k]).(linkId := AssignedLinkId(links, old(fogDevices[k]).id, old(fogDevices[k]).linkId))
        invariant forall k :: i <= k < |fogDevices| ==> fogDevices[k] == old(fogDevices[k])
        invariant endDevices == old(endDevices) && switches == old(switches) && links == old(links)
      {
        var dev := fogDevices[i];
        var linkId := AssignedLink(dev.id, dev.linkId);
        AssignedLinkIdSound(links, dev.id, dev.linkId);
        fogDevices := fogDevices[i := dev.(linkId := linkId)];
        i := i + 1;
      }
    }

    /** `assignLinksToEndDevices`: the same for the end devices. */
    method AssignLinksToEndDevices()
      requires Valid()
      modifies this
      ensures Valid()
      ensures |endDevices| == |old(endDevices)|
      ensures forall i :: 0 <= i < |endDevices| ==>
                endDevices[i] == old(endDevices[i]).(linkId := AssignedLinkId(links, old(endDevices[i]).id, old(endDevices[i]).linkId))
      ensures fogDevices == old(fogDevices) && switches == old(switches) && links == old(links)
    {
      var i := 0;
      while i < |endDevices|
        invariant 0 <= i <= |endDevices| == |old(endDevices)|
        invariant EndDeviceIds(endDevices) == EndDeviceIds(old(endDevices))
        invariant Valid()
        invariant forall k :: 0 <= k < i ==>
                    endDevices[k] == old(endDevices[k]).(linkId := AssignedLinkId(links, old(endDevices[k]).id, old(endDevices[k]).linkId))
        invariant forall k :: i <= k < |endDevices| ==> endDevices[k] == old(endDevices[k])
        invariant fogDevices == old(fogDevices) && switches == old(switches) && links == old(links)
      {
        var dev := endDevices[i];
        var linkId := AssignedLink(dev.id, dev.linkId);
        AssignedLinkIdSound(links, dev.id, dev.linkId);
        var endDevices' := endDevices[i := dev.(linkId := linkId)];
        assert EndDeviceIds(endDevices') == EndDeviceIds(endDevices) by {
          assert forall k :: 0 <= k < |endDevices| ==> endDevices'[k].id == endDevices[k].id;
        }
        endDevices := endDevices';
        i := i + 1;
      }
    }

    // -------------------------------------------------------------------
    // calculateAdjacentEntities

    /** One device loop of `calculateAdjacentEntities`: look up the device's
        link, take its other endpoint, look up that switch and record the
        device there. `ok` is false where the source dereferences null; the
        switches are then as the loop left them. */
    method AttachDevices(devs: seq<(int, Option<int>)>, end: bool) returns (ok: bool)
      modifies this
      ensures (ok, switches) == Attach(old(switches), links, devs, end)
      ensures fogDevices == old(fogDevices) && endDevices == old(endDevices) && links == old(links)
    {
      var i := 0;
      while i < |devs|
        invariant 0 <= i <= |devs|
        invariant Attach(old(switches), links, devs[..i], end) == (true, switches)
        invariant fogDevices == old(fogDevices) && endDevices == old(endDevices) && links == old(links)
      {
        assert devs[..i + 1][..i] == devs[..i];
        var (dev, linkId) := devs[i];
        if linkId.None? {
          AttachStops(old(switches), links, devs, end, i + 1);
          return false;
        }
        var li := GetLinkById(linkId.value);
        if li.None? {
          AttachStops(old(switches), links, devs, end, i + 1);
          return false;
        }
        var swId := OtherEndpoint(links[li.value], dev);
        var si := GetSwitch(swId);
        if si.None? {
          AttachStops(old(switches), links, devs, end, i + 1);
          return false;
        }
        switches := switches[si.value := Record(switches[si.value], dev, end)];
        i := i + 1;
      }
      assert devs[..i] == devs;
      return true;
    }

    /** `calculateAdjacentEntities`: fog devices first, then end devices;
        `ok` is false where the source throws a NullPointerException. */
    method CalculateAdjacentEntities() returns (ok: bool)
      requires Valid()
      modifies this
      ensures Valid()
      ensures (ok, switches) == Adjacency(old(switches), links, fogDevices, endDevices)
      ensures ok ==> forall k :: 0 <= k < |fogDevices| ==>
                var si := AttachPoint(old(switches), links, fogDevices[k].id, fogDevices[k].linkId);
                si.Some? && fogDevices[k].id in switches[si.value].adjacentEntities
      ensures ok ==> forall k :: 0 <= k < |endDevices| ==>
                var si := AttachPoint(old(switches), links, endDevices[k].id, endDevices[k].linkId);
                si.Some? && endDevices[k].id in switches[si.value].adjacentEndDevices
      ensures fogDevices == old(fogDevices) && endDevices == old(endDevices) && links == old(links)
    {
      var endIds := EndDeviceIds(endDevices);
      AttachSound(switches, links, endIds, FogLinks(fogDevices), false);
      ok := AttachDevices(FogLinks(fogDevices), false);
      if ok {
        AttachSound(switches, links, endIds, EndLinks(endDevices), true);
        ok := AttachDevices(EndLinks(endDevices), true);
      }
      if ok {
        AdjacencyRecords(old(switches), links, fogDevices, endDevices);
      }
    }

    // -------------------------------------------------------------------
    // calculateNeighbourSwitches

    /** The inner loop of `calculateNeighbourSwitches` for the switch at
        position i: the far end of each link touching it is appended to its
        neighbours when it is a registered switch. */
    method AddNeighbours(i: nat)
      requires i < |switches|
      modifies this
      ensures switches == old(switches)[i := old(switches[i]).(neighbourSwitches := old(switches[i]).neighbourSwitches
                                                                + NeighboursOf(old(switches), links, old(switches[i]).id))]
      ensures fogDevices == old(fogDevices) && endDevices == old(endDevices) && links == old(links)
    {
      var id := switches[i].id;
      ghost var start := old(switches[i]).neighbourSwitches;
      ghost var added: seq<int> := [];
      assert start + added == start;
      var j := 0;
      while j < |links|
        invariant 0 <= j <= |links|
        invariant added == NeighboursOf(old(switches), links[..j], id)
        invariant switches == old(switches)[i := old(switches[i]).(neighbourSwitches := start + added)]
        invariant fogDevices == old(fogDevices) && endDevices == old(endDevices) && links == old(links)
      {
        var neighbour, isSwitch := SwitchAtFarEnd(links[j], id);
        SameIdsLookup(old(switches), switches, neighbour);
        NeighboursOfStep(old(switches), links, j, id);
        if isSwitch {
          switches := switches[i := switches[i].(neighbourSwitches := switches[i].neighbourSwitches + [neighbour])];
          assert (start + added) + [neighbour] == start + (added + [neighbour]);
          added := added + [neighbour];
        } else {
          assert added + [] == added;
        }
        j := j + 1;
      }
      assert links[..j] == links;
    }

    /** One step of the scan: the far end of link l seen from switch id
        (-1 when l does not touch it), and whether it is a registered
        switch other than the sentinel. */
    method SwitchAtFarEnd(l: Link, id: int) returns (neighbour: int, isSwitch: bool)
      ensures neighbour == FarEnd(l, id)
      ensures isSwitch == (LastSwitchWithId(switches, neighbour).Some? && neighbour != -1)
    {
      neighbour := -1;
      if l.north == id {
        neighbour := l.south;
      } else if l.south == id {
        neighbour := l.north;
      }
      var found := GetSwitch(neighbour);
      isSwitch := found.Some? && neighbour != -1;
    }

    /** `calculateNeighbourSwitches`: every switch, in list order, gets the
        neighbours its scan of the links finds. */
    method CalculateNeighbourSwitches()
      requires Valid()
      modifies this
      ensures Valid()
      ensures switches == WithNeighbours(old(switches), links)
      ensures fogDevices == old(fogDevices) && endDevices == old(endDevices) && links == old(links)
    {
      ghost var start := switches;
      var i := 0;
      while i < |switches|
        invariant 0 <= i <= |switches|
        invariant SameIds(start, switches)
        invariant forall k :: 0 <= k < i ==> switches[k] == WithNeighbours(start, links)[k]
        invariant forall k :: i <= k < |switches| ==> switches[k] == start[k]
        invariant fogDevices == old(fogDevices) && endDevices == old(endDevices) && links == old(links)
      {
        SameIdsNeighbours(start, switches, links, switches[i].id);
        AddNeighbours(i);
        i := i + 1;
      }
      WithNeighboursSound(start, links, EndDeviceIds(endDevices));
    }
  
    // -------------------------------------------------------------------
    // calculateRoutingTables. The routing tables are a local map of the
    // source method, so here they are a value passed between the steps.

    /** The seeding of one switch's table: its adjacent fog devices, then
        the actuators of its adjacent end devices, all at 0 hops. */
    method SeedSwitch(sw: Switch) returns (t: Table)
      requires Registered(endDevices, sw.adjacentEndDevices)
      ensures t == SeedTable(sw, endDevices)
    {
      t := PutFogDevices(sw.adjacentEntities);
      t := PutEndDevices(t, sw.adjacentEndDevices);
    }

    /** The seeding loop over a switch's adjacent fog devices: each one at
        0 hops, as its own next hop. */
    method PutFogDevices(adjacent: seq<int>) returns (t: Table)
      ensures t == SeedFogDevices(map[], adjacent)
    {
      t := map[];
      var j := 0;
      while j < |adjacent|
        invariant 0 <= j <= |adjacent|
        invariant t == SeedFogDevices(map[], adjacent[..j])
      {
        assert adjacent[..j + 1][..j] == adjacent[..j];
        var adjEntity := adjacent[j];
        t := t[adjEntity := Entry(adjEntity, 0)];
        j := j + 1;
      }
      assert adjacent[..j] == adjacent;
    }

    /** The seeding loop over a switch's adjacent end devices: the
        actuators of each, looked up by id. */
    method PutEndDevices(t: Table, adjacent: seq<int>) returns (r: Table)
      requires Registered(endDevices, adjacent)
      ensures r == SeedEndDevices(t, endDevices, adjacent)
    {
      r := t;
      var j := 0;
      while j < |adjacent|
        invariant 0 <= j <= |adjacent|
        invariant Registered(endDevices, adjacent[..j])
        invariant r == SeedEndDevices(t, endDevices, adjacent[..j])
      {
        assert adjacent[..j + 1][..j] == adjacent[..j];
        var found := GetEndDevice(adjacent[j]);
        r := PutActuators(r, endDevices[found.value]);
        j := j + 1;
      }
      assert adjacent[..j] == adjacent;
    }

    /** The innermost seeding loop: every actuator of end device `dev` at
        0 hops, with `dev` as next hop. */
    method PutActuators(t: Table, dev: EndDevice) returns (r: Table)
      ensures r == SeedActuators(t, dev.id, dev.actuators)
    {
      r := t;
      var k := 0;
      while k < |dev.actuators|
        invariant 0 <= k <= |dev.actuators|
        invariant r == SeedActuators(t, dev.id, dev.actuators[..k])
      {
        assert dev.actuators[..k + 1][..k] == dev.actuators[..k];
        r := r[dev.actuators[k] := Entry(dev.id, 0)];
        k := k + 1;
      }
      assert dev.actuators[..k] == dev.actuators;
    }

    /** The first loop of `calculateRoutingTables`: a fresh table per switch
        id, seeded from that switch. */
    method SeedRoutingTables() returns (tables: Tables)
      requires AllRegistered(switches, endDevices)
      ensures tables == InitialTables(switches, endDevices)
    {
      tables := map[];
      var i := 0;
      while i < |switches|
        invariant 0 <= i <= |switches|
        invariant AllRegistered(switches[..i], endDevices)
        invariant tables == InitialTables(switches[..i], endDevices)
      {
        assert switches[..i + 1][..i] == switches[..i];
        var table := SeedSwitch(switches[i]);
        tables := tables[switches[i].id := table];
        i := i + 1;
      }
      assert switches[..i] == switches;
    }

    /** The innermost loop of the flooding: `updateRoutingTable` on switch
        `to` for every destination of switch `from`, with `from` as next
        hop and one more hop. The destinations are taken in an unspecified
        order, as a HashMap's key set iterates. */
    method RelaxNeighbour(tables: Tables, from: int, to: int) returns (r: Tables)
      requires from in tables && to in tables
      ensures r == RelaxInto(tables, from, to)
    {
      var table := tables[from];
      var keys := table.Keys;
      ghost var cur := tables[to];
      RelaxedNothing(tables[to], table, from);
      assert tables[to := cur] == tables;
      r := tables;
      while keys != {}
        invariant keys <= table.Keys
        invariant cur == Relaxed(tables[to], Restrict(table, table.Keys - keys), from)
        invariant to in r && r == tables[to := cur]
        decreases keys
      {
        SomeMember(keys);
        var dst :| dst in keys;
        RelaxedStep(tables[to], table, from, table.Keys - keys, dst);
        assert table.Keys - (keys - {dst}) == (table.Keys - keys) + {dst};
        UpdateRoutingTableAfterPut(tables, to, cur, dst, from, table[dst].hops + 1);
        cur := Update(cur, dst, from, table[dst].hops + 1);
        r := UpdateRoutingTable(r, to, dst, from, table[dst].hops + 1);
        keys := keys - {dst};
      }
      assert table.Keys - keys == table.Keys;
      assert Restrict(table, table.Keys) == table;
    }

    /** One pass of the `while` body: each switch, in list order, floods
        its table to each of its neighbours, in list order. */
    method FloodRound(tables: Tables) returns (r: Tables)
      requires Keyed(tables, switches)
      ensures r == Round(tables, switches)
    {
      r := tables;
      var i := 0;
      while i < |switches|
        invariant 0 <= i <= |switches|
        invariant Keyed(tables, switches[..i])
        invariant r == Round(tables, switches[..i])
      {
        RoundStep(tables, switches, i);
        r := FloodFrom(r, switches[i]);
        i := i + 1;
      }
      assert switches[..i] == switches;
    }

    /** The inner `for` loop of one pass: switch `sw` floods its table to
        each of its neighbours in turn. */
    method FloodFrom(tables: Tables, sw: Switch) returns (r: Tables)
      requires sw.id in tables && forall n :: n in sw.neighbourSwitches ==> n in tables
      ensures r == FloodNeighbours(tables, sw.id, sw.neighbourSwitches)
    {
      r := tables;
      var j := 0;
      while j < |sw.neighbourSwitches|
        invariant 0 <= j <= |sw.neighbourSwitches|
        invariant r.Keys == tables.Keys
        invariant r == FloodNeighbours(tables, sw.id, sw.neighbourSwitches[..j])
      {
        FloodNeighboursStep(tables, sw.id, sw.neighbourSwitches, j);
        r := RelaxNeighbour(r, sw.id, sw.neighbourSwitches[j]);
        j := j + 1;
      }
      assert sw.neighbourSwitches[..j] == sw.neighbourSwitches;
    }

    /** `isRoutingConverged`: false as soon as some table holds fewer than
        numNodes destinations, the tables taken in unspecified order. */
    method IsRoutingConverged(tables: Tables, numNodes: int) returns (converged: bool)
      ensures converged == Converged(tables, numNodes)
    {
      var keys := tables.Keys;
      while keys != {}
        invariant keys <= tables.Keys
        invariant forall s :: s in tables && s !in keys ==> |tables[s]| >= numNodes
        decreases keys
      {
        SomeMember(keys);
        var swId :| swId in keys;
        if |tables[swId]| < numNodes {
          return false;
        }
        keys := keys - {swId};
      }
      return true;
    }

    /** The last loop of `calculateRoutingTables`, for the switch at
        position i: each destination of its routing table whose next hop a
        link joins to the switch gets that link's id; for the others the
        source only logs an error. */
    method AddSwitchingEntries(i: nat, t: Table)
      requires i < |switches|
      modifies this
      ensures switches == old(switches)[i := old(switches[i]).(switchingTable := old(switches[i]).switchingTable
                                                                 + SwitchingEntries(t, links, old(switches[i]).id))]
      ensures fogDevices == old(fogDevices) && endDevices == old(endDevices) && links == old(links)
    {
      var id := switches[i].id;
      var keys := t.Keys;
      SwitchingEntriesNothing(switches[i].switchingTable, t, links, id);
      assert switches[i := switches[i]] == switches;
      while keys != {}
        invariant keys <= t.Keys
        invariant switches == old(switches)[i := old(switches[i]).(switchingTable := old(switches[i]).switchingTable
                                                                    + SwitchingEntries(Restrict(t, t.Keys - keys), links, id))]
        invariant fogDevices == old(fogDevices) && endDevices == old(endDevices) && links == old(links)
        decreases keys
      {
        SomeMember(keys);
        var dst :| dst in keys;
        ghost var done := t.Keys - keys;
        SwitchingEntriesGrow(t, links, id, done, dst);
        assert t.Keys - (keys - {dst}) == done + {dst};
        var nextHop := t[dst].nextHop;
        var link := GetLinkBetween(id, nextHop);
        if link.Some? {
          MergeUpdate(old(switches[i]).switchingTable, SwitchingEntries(Restrict(t, done), links, id), dst, links[link.value].id);
          switches := switches[i := switches[i].(switchingTable := switches[i].switchingTable[dst := links[link.value].id])];
        }
        keys := keys - {dst};
      }
      assert t.Keys - keys == t.Keys;
      assert Restrict(t, t.Keys) == t;
    }

    /** The last loop of `calculateRoutingTables` over every switch. */
    method BuildSwitchingTables(tables: Tables)
      requires forall i :: 0 <= i < |switches| ==> switches[i].id in tables
      modifies this
      ensures switches == WithSwitching(old(switches), tables, links)
      ensures fogDevices == old(fogDevices) && endDevices == old(endDevices) && links == old(links)
    {
      ghost var start := switches;
      var i := 0;
      while i < |switches|
        invariant 0 <= i <= |switches|
        invariant SameIds(start, switches)
        invariant forall k :: 0 <= k < i ==> switches[k] == WithSwitching(start, tables, links)[k]
        invariant forall k :: i <= k < |switches| ==> switches[k] == start[k]
        invariant fogDevices == old(fogDevices) && endDevices == old(endDevices) && links == old(links)
      {
        AddSwitchingEntries(i, tables[switches[i].id]);
        i := i + 1;
      }
    }
  
    /** The `while` loop of `calculateRoutingTables`, cut off after
        maxRounds passes. */
    method Flood(init: Tables, numNodes: int, maxRounds: nat) returns (converged: bool, rounds: nat, tables: Tables)
      requires Keyed(init, switches)
      ensures rounds == Converge(init, switches, numNodes, 0, maxRounds)
      ensures tables == Rounds(init, switches, rounds)
      ensures converged == Converged(tables, numNodes)
    {
      tables := init;
      rounds := 0;
      converged := IsRoutingConverged(tables, numNodes);
      while !converged && rounds < maxRounds
        invariant tables == Rounds(init, switches, rounds)
        invariant converged == Converged(tables, numNodes)
        invariant Converge(init, switches, numNodes, rounds, maxRounds) == Converge(init, switches, numNodes, 0, maxRounds)
        decreases maxRounds - rounds
      {
        tables := FloodRound(tables);
        rounds := rounds + 1;
        converged := IsRoutingConverged(tables, numNodes);
      }
    }

    /** The flooding loop as the comment on it intends it: passes repeat
        until one changes nothing, cut off after maxRounds passes. When it
        stops on such a pass, no hop count exceeds the length of a flood
        path from a switch that knows the destination. */
    method FloodUntilStable(init: Tables, maxRounds: nat) returns (stable: bool, rounds: nat, tables: Tables)
      requires Keyed(init, switches)
      ensures rounds == StableStop(init, switches, 0, maxRounds)
      ensures tables == Rounds(init, switches, rounds)
      ensures stable == Stable(tables, switches)
      ensures !stable ==> rounds == maxRounds
      ensures stable ==> forall p, d :: FloodPath(switches, p) && p[0] in tables && d in tables[p[0]] ==>
                p[|p| - 1] in tables && d in tables[p[|p| - 1]]
                && tables[p[|p| - 1]][d].hops <= tables[p[0]][d].hops + |p| - 1
    {
      tables := init;
      rounds := 0;
      var next := FloodRound(tables);
      stable := next == tables;
      while !stable && rounds < maxRounds
        invariant rounds <= maxRounds
        invariant tables == Rounds(init, switches, rounds)
        invariant Keyed(tables, switches)
        invariant next == Round(tables, switches)
        invariant stable == (next == tables)
        invariant StableStop(init, switches, rounds, maxRounds) == StableStop(init, switches, 0, maxRounds)
        decreases maxRounds - rounds
      {
        tables := next;
        rounds := rounds + 1;
        KeyedSameKeys(init, tables, switches);
        next := FloodRound(tables);
        stable := next == tables;
      }
      if stable {
        forall p, d | FloodPath(switches, p) && p[0] in tables && d in tables[p[0]]
          ensures p[|p| - 1] in tables && d in tables[p[|p| - 1]]
          ensures tables[p[|p| - 1]][d].hops <= tables[p[0]][d].hops + |p| - 1
        {
          StablePathBound(tables, switches, p, d);
        }
      }
    }

    /** The routing part of `calculateRoutingTables`: numNodes, the
        seeding and the flooding loop, cut off after maxRounds passes. Every
        next hop in the result is joined to its switch by a link, and is a
        device attached to the switch or a switch that floods to it. */
    method RoutingTables(maxRounds: nat) returns (converged: bool, rounds: nat, tables: Tables)
      requires Valid()
      ensures rounds <= maxRounds
      ensures tables == Rounds(InitialTables(switches, endDevices), switches, rounds)
      ensures converged == Converged(tables, NumNodes(fogDevices, endDevices))
      ensures forall n :: 0 <= n < rounds ==>
                !Converged(Rounds(InitialTables(switches, endDevices), switches, n), NumNodes(fogDevices, endDevices))
      ensures !converged ==> rounds == maxRounds
      ensures forall i :: 0 <= i < |switches| ==> switches[i].id in tables
      ensures EntriesJoined(tables, links) && EntriesLocal(tables, switches)
    {
      var actuators := GetActuators();
      var numNodes := |fogDevices| + |actuators|;
      SoundSwitchesRoute(switches, links, endDevices);
      InitialTablesKeyed(switches, links, endDevices);
      InitialTablesJoined(switches, links, endDevices);
      InitialTablesLocal(switches, endDevices);
      ghost var init := InitialTables(switches, endDevices);
      tables := SeedRoutingTables();
      converged, rounds, tables := Flood(tables, numNodes, maxRounds);
      ConvergeBounds(init, switches, numNodes, 0, maxRounds);
      forall n | 0 <= n < rounds
        ensures !Converged(Rounds(init, switches, n), numNodes)
      {
        ConvergeFirst(init, switches, numNodes, 0, maxRounds, n);
      }
      RoundsJoined(init, switches, links, rounds);
      RoundsLocal(init, switches, rounds);
    }

    /** `calculateRoutingTables`: the routing tables, then, when they
        converged, the switching tables. The source's `while` loop runs
        forever when some switch cannot reach enough destinations; here it
        runs at most maxRounds passes and the switching tables are left
        alone when the tables did not converge. A converged run gives every
        switch a link for every destination its routing table knows. */
    method CalculateRoutingTables(maxRounds: nat) returns (converged: bool, rounds: nat, tables: Tables)
      requires Valid()
      modifies this
      ensures Valid()
      ensures fogDevices == old(fogDevices) && endDevices == old(endDevices) && links == old(links)
      ensures rounds <= maxRounds
      ensures tables == Rounds(InitialTables(old(switches), endDevices), old(switches), rounds)
      ensures converged == Converged(tables, NumNodes(fogDevices, endDevices))
      ensures forall n :: 0 <= n < rounds ==>
                !Converged(Rounds(InitialTables(old(switches), endDevices), old(switches), n), NumNodes(fogDevices, endDevices))
      ensures !converged ==> rounds == maxRounds && switches == old(switches)
      ensures converged ==> switches == WithSwitching(old(switches), tables, links)
      ensures EntriesJoined(tables, links)
      ensures converged ==> forall i :: 0 <= i < |switches| ==>
                switches[i].id in tables && tables[switches[i].id].Keys <= switches[i].switchingTable.Keys
    {
      converged, rounds, tables := RoutingTables(maxRounds);
      if converged {
        WithSwitchingSound(switches, tables, links, EndDeviceIds(endDevices));
        BuildSwitchingTables(tables);
        forall i | 0 <= i < |switches|
          ensures switches[i].id in tables && tables[switches[i].id].Keys <= switches[i].switchingTable.Keys
        {
          SwitchingComplete(tables, links, switches[i].id);
        }
      }
    }

    /** `setUpEntities`: assign links to fog devices and end devices, attach
        them to switches, find neighbour switches and compute the routing
        and switching tables. `ok` is false where attaching a device throws
        a NullPointerException in the source: the switches keep the
        attachments made before it, and nothing runs after it. */
    method SetUpEntities(maxRounds: nat) returns (ok: bool, converged: bool, rounds: nat, tables: Tables)
      requires Valid()
      modifies this
      ensures Valid()
      ensures links == old(links)
      ensures |fogDevices| == |old(fogDevices)| && |endDevices| == |old(endDevices)|
      ensures forall i :: 0 <= i < |fogDevices| ==>
                fogDevices[i] == old(fogDevices[i]).(linkId := AssignedLinkId(links, old(fogDevices[i]).id, old(fogDevices[i]).linkId))
      ensures forall i :: 0 <= i < |endDevices| ==>
                endDevices[i] == old(endDevices[i]).(linkId := AssignedLinkId(links, old(endDevices[i]).id, old(endDevices[i]).linkId))
      ensures var adjacency := Adjacency(old(switches), links, fogDevices, endDevices);
              ok == adjacency.0
              && (!ok ==> switches == adjacency.1 && !converged && rounds == 0 && tables == map[])
      ensures ok ==>
                var attached := WithNeighbours(Adjacency(old(switches), links, fogDevices, endDevices).1, links);
                && AllRegistered(attached, endDevices)
                && Keyed(InitialTables(attached, endDevices), attached)
                && rounds <= maxRounds
                && tables == Rounds(InitialTables(attached, endDevices), attached, rounds)
                && converged == Converged(tables, NumNodes(fogDevices, endDevices))
                && (forall n :: 0 <= n < rounds ==>
                      !Converged(Rounds(InitialTables(attached, endDevices), attached, n), NumNodes(fogDevices, endDevices)))
                && (!converged ==> rounds == maxRounds && switches == attached)
                && (converged ==> switches == WithSwitching(attached, tables, links))
      ensures converged ==> EntriesJoined(tables, links)
      ensures converged ==> forall i :: 0 <= i < |switches| ==>
                switches[i].id in tables && tables[switches[i].id].Keys <= switches[i].switchingTable.Keys
    {
      AssignLinksToFogDevices();
      AssignLinksToEndDevices();
      ghost var adjacency := Adjacency(switches, links, fogDevices, endDevices);
      ok := CalculateAdjacentEntities();
      if !ok {
        return false, false, 0, map[];
      }
      CalculateNeighbourSwitches();
      ghost var attached := switches;
      assert attached == WithNeighbours(adjacency.1, links);
      SoundSwitchesRoute(attached, links, endDevices);
      InitialTablesKeyed(attached, links, endDevices);
      converged, rounds, tables := CalculateRoutingTables(maxRounds);
    }
  }
}
