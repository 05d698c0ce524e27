/** The entities of the physical topology (`FogDevice`, `EndDevice`,
    `Switch`, `Link`) reduced to the ids and collections the set-up code of
    `PhysicalTopology` reads and writes, and the pure specifications of its
    scans: the lookups, the validator, link assignment, adjacency and
    neighbour discovery. */
module Topology {
  import opened Wrappers

  /** A link between two entities, named by their ids. Latency and
      bandwidth play no part in routing and are left out. */
  datatype Link = Link(id: int, north: int, south: int)

  /** A fog device: its entity id and the id of the link that attaches it,
      `None` until a link has been assigned. */
  datatype FogDevice = FogDevice(id: int, linkId: Option<int>)

  /** An end device also carries the ids of its actuators. */
  datatype EndDevice = EndDevice(id: int, linkId: Option<int>, actuators: seq<int>)

  /** A switch: the fog devices and end devices directly attached to it,
      its neighbour switches, and its table destination -> link id. */
  datatype Switch = Switch(id: int, adjacentEntities: seq<int>, adjacentEndDevices: seq<int>,
                           neighbourSwitches: seq<int>, switchingTable: map<int, int>)

  /** The state of a switch right after it is created. */
  function NewSwitch(id: int): Switch
  {
    Switch(id, [], [], [], map[])
  }

  predicate Touches(l: Link, x: int)
  {
    l.north == x || l.south == x
  }

  /** Link l connects a and b, in either direction. */
  predicate Joins(l: Link, a: int, b: int)
  {
    (l.north == a && l.south == b) || (l.south == a && l.north == b)
  }

  predicate Joined(links: seq<Link>, a: int, b: int)
  {
    exists i :: 0 <= i < |links| && Joins(links[i], a, b)
  }

  /** `Link.getOtherEndpoint(x)`: the endpoint that is not x. */
  function OtherEndpoint(l: Link, x: int): (y: int)
    ensures Touches(l, x) ==> Joins(l, x, y)
  {
    if l.north == x then l.south else l.north
  }

  function SwitchIds(switches: seq<Switch>): set<int>
  {
    set i | 0 <= i < |switches| :: switches[i].id
  }

  function FogIds(fogDevices: seq<FogDevice>): set<int>
  {
    set i | 0 <= i < |fogDevices| :: fogDevices[i].id
  }

  function EndDeviceIds(endDevices: seq<EndDevice>): set<int>
  {
    set i | 0 <= i < |endDevices| :: endDevices[i].id
  }

  // ---------------------------------------------------------------------
  // Lookups. Each scan of the source walks the whole list and keeps the
  // LAST match (`getSwitch`, `getLink(id)`, `getEndDevice`), except
  // `getLink(e1, e2)`, which returns the FIRST link joining the two.

  /** `getSwitch(id)`, as the position of the switch found. */
  function LastSwitchWithId(switches: seq<Switch>, id: int): (r: Option<nat>)
    ensures r.None? <==> id !in SwitchIds(switches)
    ensures r.Some? ==> r.value < |switches| && switches[r.value].id == id
                        && forall j :: r.value < j < |switches| ==> switches[j].id != id
  {
    if switches == [] then None
    else if switches[|switches| - 1].id == id then Some(|switches| - 1)
    else LastSwitchWithId(switches[..|switches| - 1], id)
  }

  /** `getLink(id)`, as the position of the link found. */
  function LastLinkWithId(links: seq<Link>, id: int): (r: Option<nat>)
    ensures r.None? <==> forall i :: 0 <= i < |links| ==> links[i].id != id
    ensures r.Some? ==> r.value < |links| && links[r.value].id == id
                        && forall j :: r.value < j < |links| ==> links[j].id != id
  {
    if links == [] then None
    else if links[|links| - 1].id == id then Some(|links| - 1)
    else LastLinkWithId(links[..|links| - 1], id)
  }

  /** `getEndDevice(id)`, as the position of the end device found. */
  function LastEndDeviceWithId(endDevices: seq<EndDevice>, id: int): (r: Option<nat>)
    ensures r.None? <==> id !in EndDeviceIds(endDevices)
    ensures r.Some? ==> r.value < |endDevices| && endDevices[r.value].id == id
                        && forall j :: r.value < j < |endDevices| ==> endDevices[j].id != id
  {
    if endDevices == [] then None
    else if endDevices[|endDevices| - 1].id == id then Some(|endDevices| - 1)
    else LastEndDeviceWithId(endDevices[..|endDevices| - 1], id)
  }

  /** The inner loop of `assignLinksTo*`: the last link touching the device. */
  function LastTouchingLink(links: seq<Link>, dev: int): (r: Option<nat>)
    ensures r.None? <==> forall i :: 0 <= i < |links| ==> !Touches(links[i], dev)
    ensures r.Some? ==> r.value < |links| && Touches(links[r.value], dev)
                        && forall j :: r.value < j < |links| ==> !Touches(links[j], dev)
  {
    if links == [] then None
    else if Touches(links[|links| - 1], dev) then Some(|links| - 1)
    else LastTouchingLink(links[..|links| - 1], dev)
  }

  /** `getLink(e1, e2)`: the first link joining the two endpoints. */
  function FirstJoiningLink(links: seq<Link>, a: int, b: int): (r: Option<nat>)
    ensures r.None? <==> !Joined(links, a, b)
    ensures r.Some? ==> r.value < |links| && Joins(links[r.value], a, b)
                        && forall j :: 0 <= j < r.value ==> !Joins(links[j], a, b)
  {
    if links == [] then None
    else if Joins(links[0], a, b) then Some(0)
    else
      var rest := FirstJoiningLink(links[1..], a, b);
      assert forall j :: 0 <= j < |links| - 1 ==> links[1..][j] == links[j + 1];
      if rest.None? then None else Some(rest.value + 1)
  }

  /** The endpoint lookup does not depend on the order of the endpoints. */
  lemma {:induction false} FirstJoiningLinkSymmetric(links: seq<Link>, a: int, b: int)
    ensures FirstJoiningLink(links, a, b) == FirstJoiningLink(links, b, a)
  {
    if links != [] && !Joins(links[0], a, b) {
      FirstJoiningLinkSymmetric(links[1..], a, b);
    }
  }

  // ---------------------------------------------------------------------
  // validateTopology

  /** How often x occurs among the endpoints of the links (a link whose two
      endpoints are x counts twice). */
  function EndpointCount(links: seq<Link>, x: int): nat
  {
    if links == [] then 0
    else
      var l := links[|links| - 1];
      EndpointCount(links[..|links| - 1], x) + (if l.north == x then 1 else 0) + (if l.south == x then 1 else 0)
  }

  predicate NoSelfLoops(links: seq<Link>)
  {
    forall i :: 0 <= i < |links| ==> links[i].north != links[i].south
  }

  /** What `validateTopology` accepts: no link is a self-loop, and no fog
      device id occurs more than once among all link endpoints. End devices
      and switches are not counted. */
  predicate ValidTopology(fogIds: set<int>, links: seq<Link>)
  {
    NoSelfLoops(links) && forall f :: f in fogIds ==> EndpointCount(links, f) <= 1
  }

  /** Every link touching x adds at least one to its endpoint count. */
  lemma {:induction false} EndpointCountCovers(links: seq<Link>, x: int, i: nat, j: nat)
    requires i < j < |links| && Touches(links[i], x) && Touches(links[j], x)
    ensures EndpointCount(links, x) >= 2
  {
    var prefix := links[..|links| - 1];
    if j < |links| - 1 {
      assert prefix[i] == links[i] && prefix[j] == links[j];
      EndpointCountCovers(prefix, x, i, j);
      EndpointCountMonotone(links, x);
    } else {
      assert prefix[i] == links[i];
      EndpointCountTouch(prefix, x, i);
    }
  }

  lemma EndpointCountMonotone(links: seq<Link>, x: int)
    requires links != []
    ensures EndpointCount(links[..|links| - 1], x) <= EndpointCount(links, x)
  {
  }

  lemma {:induction false} EndpointCountPrefix(links: seq<Link>, n: nat, x: int)
    requires n <= |links|
    ensures EndpointCount(links[..n], x) <= EndpointCount(links, x)
  {
    if n < |links| {
      var prefix := links[..|links| - 1];
      assert links[..n] == prefix[..n];
      EndpointCountPrefix(prefix, n, x);
    } else {
      assert links[..n] == links;
    }
  }

  lemma {:induction false} EndpointCountTouch(links: seq<Link>, x: int, i: nat)
    requires i < |links| && Touches(links[i], x)
    ensures EndpointCount(links, x) >= 1
  {
    if i < |links| - 1 {
      var prefix := links[..|links| - 1];
      assert prefix[i] == links[i];
      EndpointCountTouch(prefix, x, i);
    }
  }

  /** In a topology the validator accepts, each fog device is attached by
      at most one link. */
  lemma ValidTopologyUniqueLink(fogIds: set<int>, links: seq<Link>, f: int, i: nat, j: nat)
    requires ValidTopology(fogIds, links) && f in fogIds
    requires i < |links| && j < |links| && Touches(links[i], f) && Touches(links[j], f)
    ensures i == j
  {
    if i < j {
      EndpointCountCovers(links, f, i, j);
    } else if j < i {
      EndpointCountCovers(links, f, j, i);
    }
  }

  // ---------------------------------------------------------------------
  // assignLinksToFogDevices / assignLinksToEndDevices

  /** The link id a device holds after the assignment: the id of the last
      link touching it, or the id it held before when no link touches it. */
  function AssignedLinkId(links: seq<Link>, dev: int, current: Option<int>): (r: Option<int>)
    ensures (forall i :: 0 <= i < |links| ==> !Touches(links[i], dev)) ==> r == current
    ensures r != current ==> r.Some? && exists i :: 0 <= i < |links| && links[i].id == r.value && Touches(links[i], dev)
  {
    match LastTouchingLink(links, dev)
    case None => current
    case Some(i) => Some(links[i].id)
  }

  /** A device's link id, when it has one, names a link that touches it. */
  predicate LinkIdSound(links: seq<Link>, dev: int, linkId: Option<int>)
  {
    linkId.Some? ==> exists i :: 0 <= i < |links| && links[i].id == linkId.value && Touches(links[i], dev)
  }

  predicate DistinctLinkIds(links: seq<Link>)
  {
    forall i, j :: 0 <= i < j < |links| ==> links[i].id != links[j].id
  }

  /** Assignment leaves every device with a sound link id, and when a link
      touches the device, with the id of the last such link in list order. */
  lemma AssignedLinkIdSound(links: seq<Link>, dev: int, current: Option<int>)
    requires LinkIdSound(links, dev, current)
    ensures LinkIdSound(links, dev, AssignedLinkId(links, dev, current))
    ensures LastTouchingLink(links, dev).Some? ==>
              AssignedLinkId(links, dev, current) == Some(links[LastTouchingLink(links, dev).value].id)
  {
  }

  /** With distinct link ids, looking a sound link id up finds a link that
      touches the device. */
  lemma SoundLinkIdFound(links: seq<Link>, dev: int, linkId: int)
    requires DistinctLinkIds(links) && LinkIdSound(links, dev, Some(linkId))
    ensures LastLinkWithId(links, linkId).Some?
    ensures Touches(links[LastLinkWithId(links, linkId).value], dev)
  {
    var i :| 0 <= i < |links| && links[i].id == linkId && Touches(links[i], dev);
    assert LastLinkWithId(links, linkId).Some?;
  }

  // ---------------------------------------------------------------------
  // calculateAdjacentEntities

  /** The (id, link id) pairs of the fog devices, in list order. */
  function FogLinks(fogDevices: seq<FogDevice>): (r: seq<(int, Option<int>)>)
    ensures |r| == |fogDevices|
  {
    seq(|fogDevices|, i requires 0 <= i < |fogDevices| => (fogDevices[i].id, fogDevices[i].linkId))
  }

  /** The (id, link id) pairs of the end devices, in list order. */
  function EndLinks(endDevices: seq<EndDevice>): (r: seq<(int, Option<int>)>)
    ensures |r| == |endDevices|
  {
    seq(|endDevices|, i requires 0 <= i < |endDevices| => (endDevices[i].id, endDevices[i].linkId))
  }

  /** The switch a device is attached to: the link with the device's link
      id, then the switch at its other end. `None` where the source
      dereferences null: no link id, no link with that id, or no switch
      with the other endpoint's id. */
  function AttachPoint(switches: seq<Switch>, links: seq<Link>, dev: int, linkId: Option<int>): (r: Option<nat>)
    ensures r.Some? <==> linkId.Some? && LastLinkWithId(links, linkId.value).Some?
                         && OtherEndpoint(links[LastLinkWithId(links, linkId.value).value], dev) in SwitchIds(switches)
    ensures r.Some? ==> r.value < |switches|
                        && switches[r.value].id == OtherEndpoint(links[LastLinkWithId(links, linkId.value).value], dev)
  {
    if linkId.None? then None
    else match LastLinkWithId(links, linkId.value)
      case None => None
      case Some(li) => LastSwitchWithId(switches, OtherEndpoint(links[li], dev))
  }

  /** Records device `dev` at switch position si, among the attached end
      devices when `end` holds and among the attached fog devices otherwise. */
  function Record(sw: Switch, dev: int, end: bool): Switch
  {
    if end then sw.(adjacentEndDevices := sw.adjacentEndDevices + [dev])
    else sw.(adjacentEntities := sw.adjacentEntities + [dev])
  }

  /** Two switch lists with the same ids in the same positions. */
  predicate SameIds(a: seq<Switch>, b: seq<Switch>)
  {
    |a| == |b| && forall i :: 0 <= i < |a| ==> a[i].id == b[i].id
  }

  /** `getSwitch` depends on the ids only. */
  lemma {:induction false} SameIdsLookup(a: seq<Switch>, b: seq<Switch>, id: int)
    requires SameIds(a, b)
    ensures LastSwitchWithId(a, id) == LastSwitchWithId(b, id)
  {
    if a != [] {
      SameIdsLookup(a[..|a| - 1], b[..|b| - 1], id);
    }
  }

  lemma SameIdsSwitchIds(a: seq<Switch>, b: seq<Switch>)
    requires SameIds(a, b)
    ensures SwitchIds(a) == SwitchIds(b)
  {
    forall x | x in SwitchIds(a) ensures x in SwitchIds(b) {
      var i :| 0 <= i < |a| && a[i].id == x;
      assert b[i].id == x;
    }
    forall x | x in SwitchIds(b) ensures x in SwitchIds(a) {
      var i :| 0 <= i < |b| && b[i].id == x;
      assert a[i].id == x;
    }
  }

  /** One of the two device loops of `calculateAdjacentEntities`, over the
      devices in list order. The flag is false once a device hits a null
      reference; the switches are then as the loop left them. */
  function Attach(switches: seq<Switch>, links: seq<Link>, devs: seq<(int, Option<int>)>, end: bool): (r: (bool, seq<Switch>))
    ensures SameIds(switches, r.1)
  {
    if devs == [] then (true, switches)
    else
      var prev := Attach(switches, links, devs[..|devs| - 1], end);
      var d := devs[|devs| - 1];
      if !prev.0 then prev
      else match AttachPoint(prev.1, links, d.0, d.1)
        case None => (false, prev.1)
        case Some(si) => (true, prev.1[si := Record(prev.1[si], d.0, end)])
  }

  /** Once a device hits a null reference the loop is over: later devices
      change nothing. */
  lemma {:induction false} AttachStops(switches: seq<Switch>, links: seq<Link>, devs: seq<(int, Option<int>)>,
                                       end: bool, n: nat)
    requires n <= |devs| && !Attach(switches, links, devs[..n], end).0
    ensures Attach(switches, links, devs, end) == Attach(switches, links, devs[..n], end)
  {
    if n < |devs| {
      var prefix := devs[..|devs| - 1];
      assert prefix[..n] == devs[..n];
      AttachStops(switches, links, prefix, end, n);
    } else {
      assert devs[..n] == devs;
    }
  }

  /** The whole of `calculateAdjacentEntities`: fog devices, then end devices. */
  function Adjacency(switches: seq<Switch>, links: seq<Link>, fogDevices: seq<FogDevice>,
                     endDevices: seq<EndDevice>): (r: (bool, seq<Switch>))
    ensures SameIds(switches, r.1)
  {
    var fogs := Attach(switches, links, FogLinks(fogDevices), false);
    if !fogs.0 then fogs else Attach(fogs.1, links, EndLinks(endDevices), true)
  }

  /** Attaching only appends: every collection of every switch keeps what it
      held, and the neighbours and switching tables are untouched. */
  predicate Extends(a: seq<Switch>, b: seq<Switch>)
  {
    SameIds(a, b) &&
    forall i :: 0 <= i < |a| ==>
      && a[i].adjacentEntities <= b[i].adjacentEntities
      && a[i].adjacentEndDevices <= b[i].adjacentEndDevices
      && b[i].neighbourSwitches == a[i].neighbourSwitches
      && b[i].switchingTable == a[i].switchingTable
  }

  lemma {:induction false} AttachExtends(switches: seq<Switch>, links: seq<Link>, devs: seq<(int, Option<int>)>, end: bool)
    ensures Extends(switches, Attach(switches, links, devs, end).1)
  {
    if devs != [] {
      AttachExtends(switches, links, devs[..|devs| - 1], end);
    }
  }

  /** The attach point depends on the switch ids only. */
  lemma SameIdsAttachPoint(a: seq<Switch>, b: seq<Switch>, links: seq<Link>, dev: int, linkId: Option<int>)
    requires SameIds(a, b)
    ensures AttachPoint(a, links, dev, linkId) == AttachPoint(b, links, dev, linkId)
  {
    if linkId.Some? && LastLinkWithId(links, linkId.value).Some? {
      SameIdsLookup(a, b, OtherEndpoint(links[LastLinkWithId(links, linkId.value).value], dev));
    }
  }

  /** After a loop that completed, every device is recorded at the switch
      at the other end of its link. */
  lemma {:induction false} AttachRecords(switches: seq<Switch>, links: seq<Link>, devs: seq<(int, Option<int>)>,
                                         end: bool, k: nat)
    requires k < |devs|
    requires Attach(switches, links, devs, end).0
    ensures AttachPoint(switches, links, devs[k].0, devs[k].1).Some?
    ensures var si := AttachPoint(switches, links, devs[k].0, devs[k].1).value;
            var sw := Attach(switches, links, devs, end).1[si];
            devs[k].0 in (if end then sw.adjacentEndDevices else sw.adjacentEntities)
  {
    var prefix := devs[..|devs| - 1];
    var prev := Attach(switches, links, prefix, end);
    var d := devs[|devs| - 1];
    SameIdsAttachPoint(switches, prev.1, links, devs[k].0, devs[k].1);
    var si := AttachPoint(prev.1, links, d.0, d.1).value;
    if k < |devs| - 1 {
      assert prefix[k] == devs[k];
      AttachRecords(switches, links, prefix, end, k);
    }
  }

  /** When `calculateAdjacentEntities` completes, every fog device is among
      the adjacent entities, and every end device among the adjacent end
      devices, of the switch at the other end of its link. */
  lemma AdjacencyRecords(switches: seq<Switch>, links: seq<Link>, fogDevices: seq<FogDevice>, endDevices: seq<EndDevice>)
    requires Adjacency(switches, links, fogDevices, endDevices).0
    ensures var r := Adjacency(switches, links, fogDevices, endDevices).1;
            && (forall k :: 0 <= k < |fogDevices| ==>
                  var si := AttachPoint(switches, links, fogDevices[k].id, fogDevices[k].linkId);
                  si.Some? && fogDevices[k].id in r[si.value].adjacentEntities)
            && (forall k :: 0 <= k < |endDevices| ==>
                  var si := AttachPoint(switches, links, endDevices[k].id, endDevices[k].linkId);
                  si.Some? && endDevices[k].id in r[si.value].adjacentEndDevices)
  {
    var fogs := Attach(switches, links, FogLinks(fogDevices), false);
    var r := Adjacency(switches, links, fogDevices, endDevices).1;
    AttachExtends(fogs.1, links, EndLinks(endDevices), true);
    forall k | 0 <= k < |fogDevices|
      ensures var si := AttachPoint(switches, links, fogDevices[k].id, fogDevices[k].linkId);
              si.Some? && fogDevices[k].id in r[si.value].adjacentEntities
    {
      AttachRecords(switches, links, FogLinks(fogDevices), false, k);
    }
    forall k | 0 <= k < |endDevices|
      ensures var si := AttachPoint(switches, links, endDevices[k].id, endDevices[k].linkId);
              si.Some? && endDevices[k].id in r[si.value].adjacentEndDevices
    {
      AttachRecords(fogs.1, links, EndLinks(endDevices), true, k);
      SameIdsAttachPoint(switches, fogs.1, links, endDevices[k].id, endDevices[k].linkId);
    }
  }

  // ---------------------------------------------------------------------
  // calculateNeighbourSwitches

  /** The id at the far end of link l from switch sw, or the sentinel -1
      when l does not touch sw. */
  function FarEnd(l: Link, sw: int): int
  {
    if l.north == sw then l.south else if l.south == sw then l.north else -1
  }

  /** The ids the scan appends to the neighbours of switch sw, in link
      order: far ends that are registered switches, the sentinel excluded. */
  function NeighboursOf(switches: seq<Switch>, links: seq<Link>, sw: int): seq<int>
  {
    if links == [] then []
    else
      var n := FarEnd(links[|links| - 1], sw);
      NeighboursOf(switches, links[..|links| - 1], sw)
        + (if LastSwitchWithId(switches, n).Some? && n != -1 then [n] else [])
  }

  /** The scan of one more link appends that link's far end when it is a
      registered switch. */
  lemma NeighboursOfStep(switches: seq<Switch>, links: seq<Link>, j: nat, sw: int)
    requires j < |links|
    ensures var n := FarEnd(links[j], sw);
            NeighboursOf(switches, links[..j + 1], sw)
              == NeighboursOf(switches, links[..j], sw) + (if LastSwitchWithId(switches, n).Some? && n != -1 then [n] else [])
  {
    assert links[..j + 1][..j] == links[..j];
  }

  /** x is added as a neighbour of sw exactly when some link joins sw and x,
      x is a registered switch id, and x is not the sentinel -1; fog and end
      devices are never added. */
  lemma {:induction false} NeighboursOfExactly(switches: seq<Switch>, links: seq<Link>, sw: int, x: int)
    ensures x in NeighboursOf(switches, links, sw) <==> x != -1 && x in SwitchIds(switches) && Joined(links, sw, x)
  {
    if links != [] {
      var prefix := links[..|links| - 1];
      var l := links[|links| - 1];
      NeighboursOfExactly(switches, prefix, sw, x);
      JoinedLast(links, sw, x);
    }
  }

  /** A pair is joined by some link exactly when it is joined by an
      earlier link or by the last one. */
  lemma JoinedLast(links: seq<Link>, a: int, b: int)
    requires links != []
    ensures Joined(links, a, b) <==> Joined(links[..|links| - 1], a, b) || Joins(links[|links| - 1], a, b)
  {
    var prefix := links[..|links| - 1];
    assert forall j :: 0 <= j < |prefix| ==> prefix[j] == links[j];
  }

  /** The neighbour scan depends on the switch ids only. */
  lemma {:induction false} SameIdsNeighbours(a: seq<Switch>, b: seq<Switch>, links: seq<Link>, sw: int)
    requires SameIds(a, b)
    ensures NeighboursOf(a, links, sw) == NeighboursOf(b, links, sw)
  {
    if links != [] {
      SameIdsNeighbours(a, b, links[..|links| - 1], sw);
      SameIdsLookup(a, b, FarEnd(links[|links| - 1], sw));
    }
  }

  /** Every switch with the neighbours its scan appends. */
  function WithNeighbours(switches: seq<Switch>, links: seq<Link>): (r: seq<Switch>)
    ensures |r| == |switches|
    ensures forall i :: 0 <= i < |r| ==>
              && r[i] == switches[i].(neighbourSwitches := r[i].neighbourSwitches)
              && switches[i].neighbourSwitches <= r[i].neighbourSwitches
  {
    seq(|switches|, i requires 0 <= i < |switches| =>
      switches[i].(neighbourSwitches := switches[i].neighbourSwitches + NeighboursOf(switches, links, switches[i].id)))
  }

  /** After the scan, a switch's neighbours are the ones it had plus every
      registered switch (other than the sentinel) a link joins to it. */
  lemma WithNeighboursExactly(switches: seq<Switch>, links: seq<Link>, i: nat, x: int)
    requires i < |switches|
    ensures x in WithNeighbours(switches, links)[i].neighbourSwitches
            <==> x in switches[i].neighbourSwitches
                 || (x != -1 && x in SwitchIds(switches) && Joined(links, switches[i].id, x))
  {
    NeighboursOfExactly(switches, links, switches[i].id, x);
  }

  // ---------------------------------------------------------------------
  // What the set-up keeps true of the switches.

  /** Each collection of a switch names entities a link joins to it;
      attached end devices are registered end devices, and neighbours are
      registered switches. */
  predicate SwitchSound(sw: Switch, switchIds: set<int>, links: seq<Link>, endIds: set<int>)
  {
    && (forall x :: x in sw.adjacentEntities ==> Joined(links, sw.id, x))
    && (forall x :: x in sw.adjacentEndDevices ==> Joined(links, sw.id, x) && x in endIds)
    && (forall x :: x in sw.neighbourSwitches ==> Joined(links, sw.id, x) && x in switchIds)
  }

  predicate SwitchesSound(switches: seq<Switch>, links: seq<Link>, endIds: set<int>)
  {
    forall i :: 0 <= i < |switches| ==> SwitchSound(switches[i], SwitchIds(switches), links, endIds)
  }

  lemma JoinsSymmetric(l: Link, a: int, b: int)
    ensures Joins(l, a, b) <==> Joins(l, b, a)
  {
  }

  /** Recording a device that a link joins to the switch keeps it sound. */
  lemma RecordSound(sw: Switch, switchIds: set<int>, links: seq<Link>, endIds: set<int>, dev: int, end: bool)
    requires SwitchSound(sw, switchIds, links, endIds)
    requires Joined(links, sw.id, dev) && (end ==> dev in endIds)
    ensures SwitchSound(Record(sw, dev, end), switchIds, links, endIds)
  {
  }

  /** A device loop of `calculateAdjacentEntities` keeps the switches sound
      when link ids are distinct and every device's link id is sound. */
  lemma {:induction false} AttachSound(switches: seq<Switch>, links: seq<Link>, endIds: set<int>,
                                       devs: seq<(int, Option<int>)>, end: bool)
    requires DistinctLinkIds(links)
    requires forall k :: 0 <= k < |devs| ==> LinkIdSound(links, devs[k].0, devs[k].1)
    requires end ==> forall k :: 0 <= k < |devs| ==> devs[k].0 in endIds
    requires SwitchesSound(switches, links, endIds)
    ensures SwitchesSound(Attach(switches, links, devs, end).1, links, endIds)
  {
    if devs != [] {
      var prefix := devs[..|devs| - 1];
      assert forall k :: 0 <= k < |prefix| ==> prefix[k] == devs[k];
      AttachSound(switches, links, endIds, prefix, end);
      var prev := Attach(switches, links, prefix, end);
      var d := devs[|devs| - 1];
      if prev.0 && AttachPoint(prev.1, links, d.0, d.1).Some? {
        AttachOneSound(prev.1, links, endIds, d.0, d.1, end);
      }
    }
  }

  /** Recording one device at its attach point keeps the switches sound. */
  lemma AttachOneSound(switches: seq<Switch>, links: seq<Link>, endIds: set<int>, dev: int, linkId: Option<int>, end: bool)
    requires DistinctLinkIds(links) && LinkIdSound(links, dev, linkId) && (end ==> dev in endIds)
    requires SwitchesSound(switches, links, endIds)
    requires AttachPoint(switches, links, dev, linkId).Some?
    ensures var si := AttachPoint(switches, links, dev, linkId).value;
            SwitchesSound(switches[si := Record(switches[si], dev, end)], links, endIds)
  {
    var si := AttachPoint(switches, links, dev, linkId).value;
    SoundLinkIdFound(links, dev, linkId.value);
    var li := LastLinkWithId(links, linkId.value).value;
    var swId := OtherEndpoint(links[li], dev);
    JoinsSymmetric(links[li], dev, swId);
    assert switches[si].id == swId;
    assert Joined(links, swId, dev);
    RecordSound(switches[si], SwitchIds(switches), links, endIds, dev, end);
    var next := switches[si := Record(switches[si], dev, end)];
    SameIdsSwitchIds(switches, next);
    forall i | 0 <= i < |next| ensures SwitchSound(next[i], SwitchIds(next), links, endIds) {
      if i != si {
        assert next[i] == switches[i];
      }
    }
  }

  /** The neighbour scan keeps the switches sound. */
  lemma WithNeighboursSound(switches: seq<Switch>, links: seq<Link>, endIds: set<int>)
    requires SwitchesSound(switches, links, endIds)
    ensures SwitchesSound(WithNeighbours(switches, links), links, endIds)
  {
    var r := WithNeighbours(switches, links);
    SameIdsSwitchIds(switches, r);
    forall i | 0 <= i < |r| ensures SwitchSound(r[i], SwitchIds(r), links, endIds) {
      assert SwitchSound(switches[i], SwitchIds(switches), links, endIds);
      forall x | x in r[i].neighbourSwitches ensures Joined(links, r[i].id, x) && x in SwitchIds(r) {
        NeighboursOfExactly(switches, links, switches[i].id, x);
      }
    }
  }

  // ---------------------------------------------------------------------
  // Registration only appends, so it keeps what the set-up established.

  /** Adding a link keeps every existing connection. */
  lemma JoinedAppend(links: seq<Link>, l: Link, a: int, b: int)
    requires Joined(links, a, b)
    ensures Joined(links + [l], a, b)
  {
    var i :| 0 <= i < |links| && Joins(links[i], a, b);
    assert (links + [l])[i] == links[i];
  }

  lemma LinkIdSoundAppend(links: seq<Link>, l: Link, dev: int, linkId: Option<int>)
    requires LinkIdSound(links, dev, linkId)
    ensures LinkIdSound(links + [l], dev, linkId)
  {
    if linkId.Some? {
      var i :| 0 <= i < |links| && links[i].id == linkId.value && Touches(links[i], dev);
      assert (links + [l])[i] == links[i];
    }
  }

  /** Adding a link, a switch or an end device keeps the switches sound. */
  lemma SwitchesSoundGrow(switches: seq<Switch>, links: seq<Link>, endIds: set<int>,
                          switches': seq<Switch>, links': seq<Link>, endIds': set<int>)
    requires SwitchesSound(switches, links, endIds)
    requires switches <= switches' && links <= links' && endIds <= endIds'
    requires forall k :: |switches| <= k < |switches'| ==> SwitchSound(switches'[k], SwitchIds(switches'), links', endIds')
    ensures SwitchesSound(switches', links', endIds')
  {
    assert SwitchIds(switches) <= SwitchIds(switches') by {
      forall x | x in SwitchIds(switches) ensures x in SwitchIds(switches') {
        var i :| 0 <= i < |switches| && switches[i].id == x;
        assert switches'[i] == switches[i];
      }
    }
    forall a, b | Joined(links, a, b) ensures Joined(links', a, b) {
      var i :| 0 <= i < |links| && Joins(links[i], a, b);
      assert links'[i] == links[i];
    }
    forall i | 0 <= i < |switches'| ensures SwitchSound(switches'[i], SwitchIds(switches'), links', endIds') {
      if i < |switches| {
        assert switches'[i] == switches[i];
        assert SwitchSound(switches[i], SwitchIds(switches), links, endIds);
      }
    }
  }
}
