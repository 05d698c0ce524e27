/** Hop counts against flood paths. The comment on the flooding loop of
    `calculateRoutingTables` says each switch keeps, per destination, the
    hop over the neighbour with the fewest hops. The loop stops as soon as
    every table has `numNodes` destinations. This module shows, on a
    six-switch ring, that the size-based stop can leave a hop count above
    the length of a flood path. It then proves that a loop which stops on a
    pass that changes nothing does keep every hop count within flood path
    length. */
module ShortestHops {
  import opened Wrappers
  import opened Topology
  import opened Routing

  /** Switch `a` floods its table to `b`: some switch with id `a` lists `b`
      as a neighbour. */
  predicate FloodsTo(switches: seq<Switch>, a: int, b: int)
  {
    exists i :: 0 <= i < |switches| && switches[i].id == a && b in switches[i].neighbourSwitches
  }

  /** A non-empty walk along which each switch floods to the next. */
  predicate FloodPath(switches: seq<Switch>, p: seq<int>)
  {
    p != [] && forall k :: 0 <= k < |p| - 1 ==> FloodsTo(switches, p[k], p[k + 1])
  }

  /** A pass that changes nothing. */
  predicate Stable(tables: Tables, switches: seq<Switch>)
  {
    Keyed(tables, switches) && Round(tables, switches) == tables
  }

  // Monotone chains

  /** Tables that are monotone both ways hold the same hop counts. */
  lemma MonotoneBothWays(a: Tables, b: Tables, s: int, d: int)
    requires Monotone(a, b) && Monotone(b, a)
    requires s in a && d in a[s]
    ensures s in b && d in b[s] && b[s][d].hops == a[s][d].hops
  {
  }

  /** One relaxation loses no destination and raises no hop count. */
  lemma RelaxIntoMonotone(tables: Tables, from: int, to: int)
    requires from in tables && to in tables
    ensures Monotone(tables, RelaxInto(tables, from, to))
  {
  }

  /** Flooding to the remaining neighbours only lowers hop counts further. */
  lemma {:induction false} FloodNeighboursRest(tables: Tables, from: int, neighbours: seq<int>, j: nat)
    requires from in tables && forall n :: n in neighbours ==> n in tables
    requires j <= |neighbours|
    ensures forall n :: n in neighbours[..j] ==> n in tables
    ensures Monotone(FloodNeighbours(tables, from, neighbours[..j]), FloodNeighbours(tables, from, neighbours))
  {
    if j < |neighbours| {
      var prefix := neighbours[..|neighbours| - 1];
      assert prefix[..j] == neighbours[..j];
      FloodNeighboursRest(tables, from, prefix, j);
      var prev := FloodNeighbours(tables, from, prefix);
      RelaxIntoMonotone(prev, from, neighbours[|neighbours| - 1]);
      MonotoneTransitive(FloodNeighbours(tables, from, neighbours[..j]), prev, FloodNeighbours(tables, from, neighbours));
    } else {
      assert neighbours[..j] == neighbours;
    }
  }

  /** The rest of a pass only lowers hop counts further. */
  lemma {:induction false} RoundRest(tables: Tables, switches: seq<Switch>, i: nat)
    requires Keyed(tables, switches) && i <= |switches|
    ensures Keyed(tables, switches[..i])
    ensures Monotone(Round(tables, switches[..i]), Round(tables, switches))
  {
    if i < |switches| {
      var prefix := switches[..|switches| - 1];
      var sw := switches[|switches| - 1];
      assert prefix[..i] == switches[..i];
      assert Keyed(tables, prefix);
      RoundRest(tables, prefix, i);
      var prev := Round(tables, prefix);
      FloodNeighboursMonotone(prev, sw.id, sw.neighbourSwitches);
      MonotoneTransitive(Round(tables, switches[..i]), prev, Round(tables, switches));
    } else {
      assert switches[..i] == switches;
    }
  }

  /** The pass up to switch i's flood to its k-th neighbour only lowers
      hop counts. */
  lemma StableBefore(tables: Tables, switches: seq<Switch>, i: nat, k: nat)
    requires Keyed(tables, switches) && i < |switches| && k < |switches[i].neighbourSwitches|
    ensures Keyed(tables, switches[..i])
    ensures var before := Round(tables, switches[..i]);
            var sw := switches[i];
            && sw.id in before && (forall n :: n in sw.neighbourSwitches[..k] ==> n in before)
            && Monotone(tables, FloodNeighbours(before, sw.id, sw.neighbourSwitches[..k]))
  {
    var sw := switches[i];
    RoundStep(tables, switches, i);
    var before := Round(tables, switches[..i]);
    RoundMonotone(tables, switches[..i]);
    FloodNeighboursStep(before, sw.id, sw.neighbourSwitches, k);
    FloodNeighboursMonotone(before, sw.id, sw.neighbourSwitches[..k]);
    MonotoneTransitive(tables, before, FloodNeighbours(before, sw.id, sw.neighbourSwitches[..k]));
  }

  /** The rest of the pass, from the tables after switch i has flooded to
      its first j neighbours, only lowers hop counts. */
  lemma StableAfter(tables: Tables, switches: seq<Switch>, i: nat, j: nat)
    requires Keyed(tables, switches) && i < |switches| && j <= |switches[i].neighbourSwitches|
    ensures Keyed(tables, switches[..i])
    ensures var before := Round(tables, switches[..i]);
            var sw := switches[i];
            && sw.id in before && (forall n :: n in sw.neighbourSwitches[..j] ==> n in before)
            && Monotone(FloodNeighbours(before, sw.id, sw.neighbourSwitches[..j]), Round(tables, switches))
  {
    var sw := switches[i];
    RoundStep(tables, switches, i);
    var before := Round(tables, switches[..i]);
    FloodNeighboursRest(before, sw.id, sw.neighbourSwitches, j);
    RoundRest(tables, switches, i + 1);
    MonotoneTransitive(FloodNeighbours(before, sw.id, sw.neighbourSwitches[..j]),
                       FloodNeighbours(before, sw.id, sw.neighbourSwitches), Round(tables, switches));
  }

  /** After a pass that changes nothing, every neighbour a switch floods to
      holds each of that switch's destinations, at most one hop further. */
  lemma StableNoShortcut(tables: Tables, switches: seq<Switch>, i: nat, k: nat, d: int)
    requires Stable(tables, switches)
    requires i < |switches| && k < |switches[i].neighbourSwitches|
    requires d in tables[switches[i].id]
    ensures var n := switches[i].neighbourSwitches[k];
            d in tables[n] && tables[n][d].hops <= tables[switches[i].id][d].hops + 1
  {
    var sw := switches[i];
    var ns := sw.neighbourSwitches;
    StableBefore(tables, switches, i, k);
    StableAfter(tables, switches, i, k);
    StableAfter(tables, switches, i, k + 1);
    var before := Round(tables, switches[..i]);
    FloodNeighboursStep(before, sw.id, ns, k);
    var flooded := FloodNeighbours(before, sw.id, ns[..k]);
    // tables >= flooded >= tables, so flooded holds the same hop count for d
    MonotoneBothWays(tables, flooded, sw.id, d);
    var relaxed := RelaxInto(flooded, sw.id, ns[k]);
    assert relaxed[ns[k]] == Relaxed(flooded[ns[k]], flooded[sw.id], sw.id);
  }

  /** After a pass that changes nothing, a destination known at the start of
      a flood path is known at its end, at most one hop further per step. */
  lemma {:induction false} StablePathBound(tables: Tables, switches: seq<Switch>, p: seq<int>, d: int)
    requires Stable(tables, switches)
    requires FloodPath(switches, p) && p[0] in tables && d in tables[p[0]]
    ensures p[|p| - 1] in tables && d in tables[p[|p| - 1]]
    ensures tables[p[|p| - 1]][d].hops <= tables[p[0]][d].hops + |p| - 1
  {
    if |p| > 1 {
      var prefix := p[..|p| - 1];
      assert FloodPath(switches, prefix) by {
        forall k | 0 <= k < |prefix| - 1 ensures FloodsTo(switches, prefix[k], prefix[k + 1]) {
          assert prefix[k] == p[k] && prefix[k + 1] == p[k + 1];
        }
      }
      StablePathBound(tables, switches, prefix, d);
      var a, b := p[|p| - 2], p[|p| - 1];
      assert FloodsTo(switches, a, b);
      var i :| 0 <= i < |switches| && switches[i].id == a && b in switches[i].neighbourSwitches;
      var k :| 0 <= k < |switches[i].neighbourSwitches| && switches[i].neighbourSwitches[k] == b;
      StableNoShortcut(tables, switches, i, k, d);
    }
  }

  // The corrected loop

  /** The pass count at which a loop that repeats passes until one changes
      nothing stops, cut off after maxRounds passes. */
  function StableStop(init: Tables, switches: seq<Switch>, rounds: nat, maxRounds: nat): nat
    requires Keyed(init, switches)
    decreases maxRounds - rounds
  {
    if Stable(Rounds(init, switches, rounds), switches) || rounds >= maxRounds then rounds
    else StableStop(init, switches, rounds + 1, maxRounds)
  }

  /** That loop stops within the cut-off, and stops early only on tables a
      further pass leaves unchanged. */
  lemma {:induction false} StableStopBounds(init: Tables, switches: seq<Switch>, rounds: nat, maxRounds: nat)
    requires Keyed(init, switches) && rounds <= maxRounds
    ensures var r := StableStop(init, switches, rounds, maxRounds);
            rounds <= r <= maxRounds && (r < maxRounds ==> Stable(Rounds(init, switches, r), switches))
    decreases maxRounds - rounds
  {
    if !Stable(Rounds(init, switches, rounds), switches) && rounds < maxRounds {
      StableStopBounds(init, switches, rounds + 1, maxRounds);
    }
  }

  /** When that loop stops on a pass that changes nothing, no hop count
      exceeds the length of a flood path from a switch that knows the
      destination. */
  lemma StableStopShortest(init: Tables, switches: seq<Switch>, maxRounds: nat, p: seq<int>, d: int)
    requires Keyed(init, switches)
    requires Stable(Rounds(init, switches, StableStop(init, switches, 0, maxRounds)), switches)
    requires FloodPath(switches, p) && p[0] in init
    requires d in Rounds(init, switches, StableStop(init, switches, 0, maxRounds))[p[0]]
    ensures var t := Rounds(init, switches, StableStop(init, switches, 0, maxRounds));
            p[|p| - 1] in t && d in t[p[|p| - 1]] && t[p[|p| - 1]][d].hops <= t[p[0]][d].hops + |p| - 1
  {
    var t := Rounds(init, switches, StableStop(init, switches, 0, maxRounds));
    StablePathBound(t, switches, p, d);
  }

  // The size-based stop on a ring

  /** Relaxing into an empty table copies the source one hop further, via
      the flooding switch. */
  lemma RelaxedIntoEmpty(src: Table, d: int, e: Entry, via: int)
    requires src == map[d := e]
    ensures Relaxed(map[], src, via) == map[d := Entry(via, e.hops + 1)]
  {
  }

  /** A source with nothing shorter to offer leaves the target as it was. */
  lemma RelaxedNoGain(target: Table, src: Table, via: int)
    requires forall d :: d in src ==> d in target && target[d].hops <= src[d].hops + 1
    ensures Relaxed(target, src, via) == target
  {
    var r := Relaxed(target, src, via);
    assert r.Keys == target.Keys by {
      forall d | d in src.Keys ensures d in target.Keys {
      }
    }
    forall d | d in r ensures r[d] == target[d] {
    }
  }

  /** Flooding to two neighbours is two relaxations. */
  lemma FloodTwo(tables: Tables, from: int, a: int, b: int)
    requires from in tables && a in tables && b in tables
    ensures FloodNeighbours(tables, from, [a, b]) == RelaxInto(RelaxInto(tables, from, a), from, b)
  {
    FloodNeighboursStep(tables, from, [a, b], 0);
    FloodNeighboursStep(tables, from, [a, b], 1);
    assert [a, b][..0] == [] && [a, b][..2] == [a, b];
  }

  /** Six switches in a ring 1-2-6-5-4-3-1, listed in the order 2, 1, 3, 4,
      5, 6, with fog device 100 attached to switch 1 and no end devices. */
  function Ring(): seq<Switch>
  {
    [Switch(2, [], [], [6, 1], map[]),
     Switch(1, [100], [], [3, 2], map[]),
     Switch(3, [], [], [1, 4], map[]),
     Switch(4, [], [], [3, 5], map[]),
     Switch(5, [], [], [4, 6], map[]),
     Switch(6, [], [], [5, 2], map[])]
  }

  /** The tables of the ring after the first i switches of the first pass
      have flooded. */
  function RingAfter(i: nat): Tables
  {
    if i <= 1 then map[2 := map[], 1 := map[100 := Entry(100, 0)], 3 := map[], 4 := map[], 5 := map[], 6 := map[]]
    else if i == 2 then RingAfter(1)[3 := map[100 := Entry(1, 1)]][2 := map[100 := Entry(1, 1)]]
    else if i == 3 then RingAfter(2)[4 := map[100 := Entry(3, 2)]]
    else if i == 4 then RingAfter(3)[5 := map[100 := Entry(4, 3)]]
    else RingAfter(4)[6 := map[100 := Entry(5, 4)]]
  }

  /** Seeding one more switch puts its seeded table under its id. */
  lemma InitialTablesStep(switches: seq<Switch>, endDevices: seq<EndDevice>, i: nat)
    requires AllRegistered(switches, endDevices) && i < |switches|
    ensures AllRegistered(switches[..i], endDevices) && AllRegistered(switches[..i + 1], endDevices)
    ensures Registered(endDevices, switches[i].adjacentEndDevices)
    ensures InitialTables(switches[..i + 1], endDevices)
            == InitialTables(switches[..i], endDevices)[switches[i].id := SeedTable(switches[i], endDevices)]
  {
    assert switches[..i + 1][..i] == switches[..i];
    assert forall j :: 0 <= j < i + 1 ==> switches[..i + 1][j] == switches[j];
  }

  /** The ring's seeded tables: fog device 100 at 0 hops for switch 1,
      nothing for the others. */
  lemma RingSeedTables(i: nat)
    requires i < 6
    ensures SeedTable(Ring()[i], []) == if i == 1 then map[100 := Entry(100, 0)] else map[]
  {
    if i == 1 {
      assert [100][..0] == [];
    }
  }

  /** Seeding the ring gives switch 1 the fog device at 0 hops and every
      other switch an empty table. */
  lemma RingSeeded()
    ensures AllRegistered(Ring(), []) && InitialTables(Ring(), []) == RingAfter(0)
  {
    var sws := Ring();
    assert sws[..0] == [] && sws[..6] == sws;
    InitialTablesStep(sws, [], 0);
    RingSeedTables(0);
    InitialTablesStep(sws, [], 1);
    RingSeedTables(1);
    InitialTablesStep(sws, [], 2);
    RingSeedTables(2);
    InitialTablesStep(sws, [], 3);
    RingSeedTables(3);
    InitialTablesStep(sws, [], 4);
    RingSeedTables(4);
    InitialTablesStep(sws, [], 5);
    RingSeedTables(5);
  }

  /** Switch i of the ring floods its neighbours in the first pass. */
  lemma RingFlood(i: nat)
    requires i < 6
    ensures var sw := Ring()[i];
            var t := RingAfter(i);
            sw.id in t && (forall n :: n in sw.neighbourSwitches ==> n in t)
            && FloodNeighbours(t, sw.id, sw.neighbourSwitches) == RingAfter(i + 1)
  {
    var sw := Ring()[i];
    var t := RingAfter(i);
    if i == 0 {
      assert sw.id == 2 && sw.neighbourSwitches == [6, 1];
      FloodTwoNoGain(t, 2, 6, 1);
    } else if i == 1 {
      assert sw.id == 1 && sw.neighbourSwitches == [3, 2];
      RingFloodFromHost();
    } else if i == 5 {
      assert sw.id == 6 && sw.neighbourSwitches == [5, 2];
      FloodTwoNoGain(t, 6, 5, 2);
    } else {
      assert sw.id == i + 1 && sw.neighbourSwitches == [if i == 2 then 1 else i, i + 2];
      FloodTwoOnward(t, i + 1, if i == 2 then 1 else i, i + 2, 100, t[i + 1][100]);
    }
  }

  /** Relaxing into a switch whose table the source cannot improve leaves
      the tables as they were. */
  lemma RelaxIntoNoGain(tables: Tables, from: int, to: int)
    requires from in tables && to in tables
    requires forall d :: d in tables[from] ==> d in tables[to] && tables[to][d].hops <= tables[from][d].hops + 1
    ensures RelaxInto(tables, from, to) == tables
  {
    RelaxedNoGain(tables[to], tables[from], from);
  }

  /** A switch with nothing shorter to offer either neighbour leaves the
      tables as they were. */
  lemma FloodTwoNoGain(tables: Tables, from: int, a: int, b: int)
    requires from in tables && a in tables && b in tables && from != a
    requires forall d :: d in tables[from] ==> d in tables[a] && tables[a][d].hops <= tables[from][d].hops + 1
    requires forall d :: d in tables[from] ==> d in tables[b] && tables[b][d].hops <= tables[from][d].hops + 1
    ensures FloodNeighbours(tables, from, [a, b]) == tables
  {
    FloodTwo(tables, from, a, b);
    RelaxIntoNoGain(tables, from, a);
    RelaxIntoNoGain(tables, from, b);
  }

  /** A switch that knows one destination, with nothing shorter to offer
      its first neighbour, hands the destination one hop further to its
      second neighbour, whose table is empty. */
  lemma FloodTwoOnward(tables: Tables, from: int, a: int, b: int, d: int, e: Entry)
    requires from in tables && a in tables && b in tables && from != a && from != b
    requires tables[from] == map[d := e] && tables[b] == map[]
    requires d in tables[a] && tables[a][d].hops <= e.hops + 1
    ensures FloodNeighbours(tables, from, [a, b]) == tables[b := map[d := Entry(from, e.hops + 1)]]
  {
    FloodTwo(tables, from, a, b);
    RelaxIntoNoGain(tables, from, a);
    RelaxedIntoEmpty(tables[from], d, e, from);
  }

  /** Switch 1 hands fog device 100 to switches 3 and 2, one hop away. */
  lemma RingFloodFromHost()
    ensures var t := RingAfter(1);
            1 in t && 3 in t && 2 in t && FloodNeighbours(t, 1, [3, 2]) == RingAfter(2)
  {
    var t := RingAfter(1);
    FloodTwo(t, 1, 3, 2);
    RelaxedIntoEmpty(t[1], 100, Entry(100, 0), 1);
    var u := RelaxInto(t, 1, 3);
    assert u == t[3 := map[100 := Entry(1, 1)]];
    assert u[1] == t[1] && u[2] == map[];
  }

  /** Every switch of the ring and every neighbour it lists has a table. */
  lemma RingKeyed()
    ensures Keyed(RingAfter(0), Ring())
  {
    var t := RingAfter(0);
    forall i | 0 <= i < |Ring()|
      ensures Ring()[i].id in t && forall n :: n in Ring()[i].neighbourSwitches ==> n in t
    {
      assert 1 <= Ring()[i].id <= 6;
      assert forall n :: n in Ring()[i].neighbourSwitches ==> 1 <= n <= 6;
    }
  }

  /** The first pass over the ring, switch by switch. */
  lemma {:induction false} RingPass(i: nat)
    requires i <= 6
    ensures Keyed(RingAfter(0), Ring()[..i]) && Round(RingAfter(0), Ring()[..i]) == RingAfter(i)
  {
    RingKeyed();
    if i > 0 {
      RingPass(i - 1);
      RoundStep(RingAfter(0), Ring(), i - 1);
      RingFlood(i - 1);
    } else {
      assert Ring()[..0] == [];
    }
  }

  /** One pass over the seeded ring gives every switch a route to fog
      device 100, while switch 2's empty seeded table had none. */
  lemma RingOnePass()
    ensures AllRegistered(Ring(), []) && Keyed(InitialTables(Ring(), []), Ring())
    ensures Rounds(InitialTables(Ring(), []), Ring(), 1) == RingAfter(6)
    ensures InitialTables(Ring(), []) == RingAfter(0)
  {
    RingSeeded();
    RingPass(6);
    assert Ring()[..6] == Ring();
  }

  /** A loop whose seeded tables have not converged and whose first pass
      converges stops after that pass. */
  lemma ConvergeAfterOne(init: Tables, switches: seq<Switch>, numNodes: int, maxRounds: nat)
    requires Keyed(init, switches) && maxRounds >= 1
    requires !Converged(init, numNodes) && Converged(Rounds(init, switches, 1), numNodes)
    ensures Converge(init, switches, numNodes, 0, maxRounds) == 1
  {
    assert Converge(init, switches, numNodes, 0, maxRounds) == Converge(init, switches, numNodes, 1, maxRounds);
  }

  /** Switch 2's seeded table is empty; after the first pass every table
      holds fog device 100. */
  lemma RingSizes()
    ensures !Converged(RingAfter(0), 1) && Converged(RingAfter(6), 1)
  {
    assert |RingAfter(0)[2]| == 0;
    var t := RingAfter(6);
    forall s | s in t ensures |t[s]| >= 1 {
      assert 100 in t[s];
    }
  }

  /** The loop of `calculateRoutingTables` on the ring stops after one pass
      when numNodes is 1. */
  lemma RingConverges(maxRounds: nat)
    requires maxRounds >= 1
    ensures AllRegistered(Ring(), []) && Keyed(InitialTables(Ring(), []), Ring())
    ensures Converge(InitialTables(Ring(), []), Ring(), 1, 0, maxRounds) == 1
  {
    RingOnePass();
    RingSizes();
    ConvergeAfterOne(InitialTables(Ring(), []), Ring(), 1, maxRounds);
  }

  /** Switch 1 floods to switch 2, and switch 2 to switch 6. */
  lemma RingShortcut()
    ensures FloodPath(Ring(), [1, 2, 6])
  {
    assert FloodsTo(Ring(), 1, 2) by {
      assert Ring()[1].id == 1 && 2 in Ring()[1].neighbourSwitches;
    }
    assert FloodsTo(Ring(), 2, 6) by {
      assert Ring()[0].id == 2 && 6 in Ring()[0].neighbourSwitches;
    }
  }

  /** Tables with a hop count above the length of a flood path to it are
      not stable. */
  lemma LongRouteNotStable(tables: Tables, switches: seq<Switch>, p: seq<int>, d: int)
    requires FloodPath(switches, p) && p[0] in tables && d in tables[p[0]]
    requires p[|p| - 1] in tables && d in tables[p[|p| - 1]]
    requires tables[p[|p| - 1]][d].hops > tables[p[0]][d].hops + |p| - 1
    ensures !Stable(tables, switches)
  {
    if Stable(tables, switches) {
      StablePathBound(tables, switches, p, d);
    }
  }

  /** After the first pass switch 1 holds fog device 100 at 0 hops and
      switch 6 holds it via switch 5 at 4 hops, so a further pass would
      change switch 6's entry. */
  lemma RingRoutes()
    ensures RingAfter(6)[1][100] == Entry(100, 0) && RingAfter(6)[6][100] == Entry(5, 4)
    ensures !Stable(RingAfter(6), Ring())
  {
    RingShortcut();
    var t := RingAfter(6);
    assert t[1][100] == Entry(100, 0) && t[6][100] == Entry(5, 4);
    LongRouteNotStable(t, Ring(), [1, 2, 6], 100);
  }

  /** On the ring, the loop of `calculateRoutingTables` stops after one
      pass, with numNodes 1 (one fog device, no actuators): every table
      then holds fog device 100. Switch 6 routes to it via switch 5 in 4
      hops, yet switch 1 floods to switch 2 and switch 2 to switch 6, a
      path of 2 hops. So the stop leaves a hop count above a flood path's
      length, which `StableStopShortest` rules out for the loop that stops
      on a pass that changes nothing; and the stopped tables are not
      stable. */
  lemma SizeStopNotShortest(maxRounds: nat)
    requires maxRounds >= 1
    ensures RingAfter(6)[1][100] == Entry(100, 0) && RingAfter(6)[6][100] == Entry(5, 4)
    ensures FloodPath(Ring(), [1, 2, 6]) && !Stable(RingAfter(6), Ring())
    ensures AllRegistered(Ring(), []) && Keyed(InitialTables(Ring(), []), Ring())
    ensures NumNodes([FogDevice(100, None)], []) == 1
    ensures Converge(InitialTables(Ring(), []), Ring(), 1, 0, maxRounds) == 1
    ensures Rounds(InitialTables(Ring(), []), Ring(), 1) == RingAfter(6)
  {
    RingOnePass();
    RingConverges(maxRounds);
    RingShortcut();
    RingRoutes();
  }
}
