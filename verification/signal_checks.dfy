/** The admission checks a signal runs before it lets a train into its block
    (src/control/rail_system/components/signal_checks.rs). The railroad's
    sensor and signal mutexes are read as a snapshot of the `Railroad`
    record. */
module SignalChecks {
  import opened Primitives
  import opened Speeds
  import opened Elements
  import opened Trains
  import opened TrackGraph
  import opened Railroads

  // ---------------------------------------------------------------------
  // handle_cross_route
  // ---------------------------------------------------------------------

  /** The other node of a crossing, seen from `parent`. */
  function Partner(cross: Cross, parent: nat): (r: nat)
    ensures r == cross.nodes.0 || r == cross.nodes.1
    ensures parent == cross.nodes.0 ==> r == cross.nodes.1
    ensures parent == cross.nodes.1 ==> r == cross.nodes.0
  {
    if cross.nodes.0 == parent then cross.nodes.1 else cross.nodes.0
  }

  /** `handle_cross_route`: the search continues on the far side of a
      crossing, so the crossing's other node is queued. */
  function HandleCrossRoute(cross: Cross, parent: nat, stack: seq<nat>): (r: seq<nat>)
    ensures |r| == |stack| + 1 && r[..|stack|] == stack
    ensures parent == cross.nodes.0 ==> r[|stack|] == cross.nodes.1
    ensures parent == cross.nodes.1 && cross.nodes.0 != cross.nodes.1 ==> r[|stack|] == cross.nodes.0
  {
    stack + [Partner(cross, parent)]
  }

  /** On a crossing with two distinct nodes, the partner of either node is
      the other one, so going across twice returns to the start. */
  lemma PartnerInvolution(cross: Cross, parent: nat)
    requires cross.nodes.0 != cross.nodes.1
    requires parent == cross.nodes.0 || parent == cross.nodes.1
    ensures Partner(cross, parent) != parent
    ensures Partner(cross, parent) == cross.nodes.0 || Partner(cross, parent) == cross.nodes.1
    ensures Partner(cross, Partner(cross, parent)) == parent
  {
  }

  // ---------------------------------------------------------------------
  // block_behaviour
  // ---------------------------------------------------------------------

  /** A sensor a block signal may hand out: nobody holds its block. */
  predicate Passable(st: Status)
  {
    st == Free || st == PathFree
  }

  /** No listed sensor that exists in the railroad is reserved or occupied. */
  predicate BlockClear(sensors: seq<nat>, rr: Railroad)
  {
    forall i :: 0 <= i < |sensors| && sensors[i] in rr.sensors ==> Passable(rr.sensors[sensors[i]].elem.status)
  }

  /** `block_behaviour`: the block's sensors are handed out unchanged when
      none of the known ones is taken; unknown addresses are skipped. */
  function BlockBehaviour(sensors: seq<nat>, rr: Railroad): (r: Option<seq<nat>>)
    ensures r.Some? <==> BlockClear(sensors, rr)
    ensures r.Some? ==> r.value == sensors
    decreases |sensors|
  {
    if sensors == [] then Some([])
    else if sensors[0] in rr.sensors && !Passable(rr.sensors[sensors[0]].elem.status) then None
    else
      var rest := BlockBehaviour(sensors[1..], rr);
      assert forall i :: 1 <= i < |sensors| ==> sensors[i] == sensors[1..][i - 1];
      if rest.None? then None else Some(sensors)
  }

  // ---------------------------------------------------------------------
  // path_free
  // ---------------------------------------------------------------------

  /** The registry lookups `path_free` makes on `path` succeed: every node
      up to and including the first signal exists, that signal is
      registered, and so is every sensor before it. */
  predicate PathLookupsOk(path: seq<nat>, rr: Railroad)
    decreases |path|
  {
    if path == [] then true
    else
      path[0] < |rr.road.nodes|
      && match rr.road.nodes[path[0]]
         case SignalNode(s, _) => s in rr.signals
         case SensorNode(s, _) => s in rr.sensors && PathLookupsOk(path[1..], rr)
         case _ => PathLookupsOk(path[1..], rr)
  }

  /** No signal node among the first `j` nodes of the path. */
  predicate NoSignalBefore(path: seq<nat>, nodes: seq<Node>, j: nat)
    requires j <= |path|
  {
    forall i :: 0 <= i < j ==> !SignalAt(nodes, path[i])
  }

  /** The check `path_free` makes at one node: a signal must be free (or be
      ignored), a sensor must be free, any other node passes. */
  predicate NodePasses(rr: Railroad, x: nat, ignoreSignal: bool)
  {
    x < |rr.road.nodes|
    && match rr.road.nodes[x]
       case SignalNode(s, _) => s in rr.signals && (rr.signals[s].status == Free || ignoreSignal)
       case SensorNode(s, _) => s in rr.sensors && rr.sensors[s].elem.status == Free
       case _ => true
  }

  /** `path_free`: walking the path, the first signal decides the answer and
      every sensor before it must be free; stations and other nodes are not
      checked. */
  function IsPathFree(path: seq<nat>, rr: Railroad, ignoreSignal: bool): (r: bool)
    requires PathLookupsOk(path, rr)
    ensures r <==> forall j :: 0 <= j < |path| && NoSignalBefore(path, rr.road.nodes, j) ==> NodePasses(rr, path[j], ignoreSignal)
    decreases |path|
  {
    if path == [] then true
    else
      var rest := path[1..];
      assert forall j :: 1 <= j < |path| ==> path[j] == rest[j - 1];
      assert forall j :: 1 <= j <= |path| ==> (NoSignalBefore(path, rr.road.nodes, j) <==>
        !SignalAt(rr.road.nodes, path[0]) && NoSignalBefore(rest, rr.road.nodes, j - 1));
      match rr.road.nodes[path[0]]
      case SignalNode(s, _) => rr.signals[s].status == Free || ignoreSignal
      case SensorNode(s, _) => if rr.sensors[s].elem.status != Free then false else IsPathFree(rest, rr, ignoreSignal)
      case _ => IsPathFree(rest, rr, ignoreSignal)
  }

  /** A path that starts at a free signal is free, whatever follows. */
  lemma PathFreeAtFreeSignal(path: seq<nat>, rr: Railroad, ignoreSignal: bool)
    requires PathLookupsOk(path, rr)
    requires |path| > 0 && SignalAt(rr.road.nodes, path[0])
    requires rr.signals[rr.road.nodes[path[0]].signal].status == Free
    ensures IsPathFree(path, rr, ignoreSignal)
  {
    assert NodePasses(rr, path[0], ignoreSignal);
    assert forall j :: 0 < j < |path| ==> !NoSignalBefore(path, rr.road.nodes, j);
  }

  // ---------------------------------------------------------------------
  // path_behaviour
  // ---------------------------------------------------------------------

  /** Node `x` is a `Sensor` node with address `a`. */
  predicate SensorNodeWith(nodes: seq<Node>, x: nat, a: nat)
  {
    x < |nodes| && nodes[x].SensorNode? && nodes[x].sensor == a
  }

  /** The `Sensor` nodes of a path, in order, as addresses; stations,
      signals, other nodes and missing indices are dropped. */
  function SensorAddresses(path: seq<nat>, nodes: seq<Node>): (r: seq<nat>)
    ensures |r| <= |path|
    ensures forall a :: a in r <==> exists j :: 0 <= j < |path| && SensorNodeWith(nodes, path[j], a)
    decreases |path|
  {
    if path == [] then []
    else
      var rest := SensorAddresses(path[1..], nodes);
      assert forall j :: 1 <= j < |path| ==> path[j] == path[1..][j - 1];
      Head(path[0], nodes) + rest
  }

  /** The address a single path node contributes. */
  function Head(x: nat, nodes: seq<Node>): seq<nat>
  {
    match NodeAt(nodes, x)
    case Some(SensorNode(a, _)) => [a]
    case _ => []
  }

  /** The address list of a concatenation is the concatenation of the address
      lists: the order of the path is kept. */
  lemma {:induction false} SensorAddressesAppend(a: seq<nat>, b: seq<nat>, nodes: seq<Node>)
    ensures SensorAddresses(a + b, nodes) == SensorAddresses(a, nodes) + SensorAddresses(b, nodes)
    decreases |a|
  {
    if a != [] {
      assert (a + b)[1..] == a[1..] + b;
      assert (a + b)[0] == a[0];
      SensorAddressesAppend(a[1..], b, nodes);
      var h := Head(a[0], nodes);
      assert SensorAddresses(a + b, nodes) == h + SensorAddresses(a[1..] + b, nodes);
      assert h + (SensorAddresses(a[1..], nodes) + SensorAddresses(b, nodes))
          == (h + SensorAddresses(a[1..], nodes)) + SensorAddresses(b, nodes);
    } else {
      assert a + b == b;
    }
  }

  /** The lookups `path_behaviour` makes cannot fail: every signal and
      sensor node is registered and every train's route lies in the
      graph. */
  predicate LookupsTotal(rr: Railroad)
  {
    && (forall i :: 0 <= i < |rr.road.nodes| && rr.road.nodes[i].SignalNode? ==> rr.road.nodes[i].signal in rr.signals)
    && (forall i :: 0 <= i < |rr.road.nodes| && rr.road.nodes[i].SensorNode? ==> rr.road.nodes[i].sensor in rr.sensors)
    && (forall t, k :: t in rr.trains && rr.trains[t].route.Some? && 0 <= k < |rr.trains[t].route.value| ==>
          rr.trains[t].route.value[k].node < |rr.road.nodes|)
  }

  /** Consistent registries leave only the routes to check. */
  lemma RegistriesMakeLookupsTotal(rr: Railroad)
    requires RegistriesConsistent(rr)
    requires forall t, k :: t in rr.trains && rr.trains[t].route.Some? && 0 <= k < |rr.trains[t].route.value| ==>
      rr.trains[t].route.value[k].node < |rr.road.nodes|
    ensures LookupsTotal(rr)
  {
    forall i | 0 <= i < |rr.road.nodes| && rr.road.nodes[i].SensorNode?
      ensures rr.road.nodes[i].sensor in rr.sensors
    {
      assert OfKind(rr.road.nodes[i], SensorKind);
    }
  }

  lemma {:induction false} LookupsTotalPath(path: seq<nat>, rr: Railroad)
    requires LookupsTotal(rr)
    requires forall k :: 0 <= k < |path| ==> path[k] < |rr.road.nodes|
    ensures PathLookupsOk(path, rr)
    decreases |path|
  {
    if path != [] {
      LookupsTotalPath(path[1..], rr);
    }
  }

  /** The route slice of the signal's first requester, if there is one. */
  function RequestedRoute(sig: Signal, rr: Railroad): (r: Option<seq<nat>>)
    requires LookupsTotal(rr)
    ensures r.Some? ==> |r.value| > 0 && PathLookupsOk(r.value, rr) && PathLookupsOk(r.value[1..], rr)
    ensures r.Some? ==> SignalAt(rr.road.nodes, r.value[0]) && rr.road.nodes[r.value[0]].signal == sig.address
    ensures r.Some? ==> forall k :: 0 < k < |r.value| - 1 ==> !SignalAt(rr.road.nodes, r.value[k])
    ensures r.Some? <==>
      && |sig.requesters| > 0 && sig.requesters[0] in rr.trains
      && RequestRoute(rr.trains[sig.requesters[0]], rr.road.nodes, sig.address).Some?
  {
    if |sig.requesters| == 0 || sig.requesters[0] !in rr.trains then None
    else
      var t := rr.trains[sig.requesters[0]];
      var route :- RequestRoute(t, rr.road.nodes, sig.address);
      RequestRouteInRange(t, sig.requesters[0], rr, sig.address);
      RequestRouteSliceShape(t, rr.road.nodes, sig.address);
      Some(route)
  }

  /** The slice `request_route` returns for a train of the railroad can be
      checked by `path_free`, with or without its first node. */
  lemma RequestRouteInRange(t: Train, key: nat, rr: Railroad, sig: nat)
    requires LookupsTotal(rr) && key in rr.trains && rr.trains[key] == t
    requires RequestRoute(t, rr.road.nodes, sig).Some?
    ensures var route := RequestRoute(t, rr.road.nodes, sig).value;
      |route| > 0 && PathLookupsOk(route, rr) && PathLookupsOk(route[1..], rr)
  {
    var route := RequestRoute(t, rr.road.nodes, sig).value;
    forall k | 0 <= k < |route|
      ensures route[k] < |rr.road.nodes|
    {
      var start, end :| 0 <= start < end <= |t.route.value| && route == Nodes(t.route.value[start..end]);
      var slice := t.route.value[start..end];
      assert route == Nodes(slice) && |route| == |slice|;
      assert route[k] == slice[k].node;
      assert slice[k] == t.route.value[start + k];
    }
    LookupsTotalPath(route, rr);
    LookupsTotalPath(route[1..], rr);
  }

  /** The slice `request_route` returns starts at the requested signal and
      has no other signal before its last node. */
  lemma RequestRouteSliceShape(t: Train, nodes: seq<Node>, sig: nat)
    requires RequestRoute(t, nodes, sig).Some?
    ensures var r := RequestRoute(t, nodes, sig).value;
      && |r| > 0 && SignalAt(nodes, r[0]) && nodes[r[0]].signal == sig
      && forall k :: 0 < k < |r| - 1 ==> !SignalAt(nodes, r[k])
  {
    var route := t.route.value;
    var r := RequestRoute(t, nodes, sig).value;
    var start, end :| 0 <= start < end <= |route|
      && FirstSignalWithAddress(route, nodes, sig) == Some(start)
      && r == Nodes(route[start..end])
      && (forall j :: start < j < end - 1 ==> !SignalHop(nodes, route[j]));
    SliceShape(route, nodes, sig, start, end);
  }

  /** The nodes of a slice that starts at a signal hop and has no signal hop
      strictly inside. */
  lemma SliceShape(route: seq<Hop>, nodes: seq<Node>, sig: nat, start: nat, end: nat)
    requires start < end <= |route| && SignalHopWithAddress(nodes, route[start], sig)
    requires forall j :: start < j < end - 1 ==> !SignalHop(nodes, route[j])
    ensures var r := Nodes(route[start..end]);
      && |r| > 0 && SignalAt(nodes, r[0]) && nodes[r[0]].signal == sig
      && forall k :: 0 < k < |r| - 1 ==> !SignalAt(nodes, r[k])
  {
    var r := Nodes(route[start..end]);
    assert r[0] == route[start].node;
    forall k | 0 < k < |r| - 1
      ensures !SignalAt(nodes, r[k])
    {
      assert r[k] == route[start + k].node;
      assert !SignalHop(nodes, route[start + k]);
    }
  }

  /** `path_behaviour`: the signal's first requester must have a route
      through the signal and `path_free` must accept that route slice; the
      signal then hands out the addresses of the slice's sensors. Path
      signals ignore the next signal's state. */
  function PathBehaviour(sig: Signal, rr: Railroad): (r: Option<seq<nat>>)
    requires LookupsTotal(rr)
    ensures r.Some? <==>
      && RequestedRoute(sig, rr).Some?
      && IsPathFree(RequestedRoute(sig, rr).value, rr, sig.sigType == PathSignal)
    ensures r.Some? ==> r.value == SensorAddresses(RequestedRoute(sig, rr).value, rr.road.nodes)
  {
    var route :- RequestedRoute(sig, rr);
    if !IsPathFree(route, rr, sig.sigType == PathSignal) then None
    else Some(SensorAddresses(route, rr.road.nodes))
  }

  /** As written, the slice `path_free` checks starts at the signal itself,
      so the answer is that signal's own state and no sensor of the block is
      ever inspected. */
  lemma PathFreeOnOwnRoute(sig: Signal, rr: Railroad)
    requires LookupsTotal(rr)
    requires RequestedRoute(sig, rr).Some?
    ensures var route := RequestedRoute(sig, rr).value;
      IsPathFree(route, rr, sig.sigType == PathSignal) <==>
        rr.signals[sig.address].status == Free || sig.sigType == PathSignal
  {
    var route := RequestedRoute(sig, rr).value;
    var ig := sig.sigType == PathSignal;
    assert NoSignalBefore(route, rr.road.nodes, 0);
    assert NodePasses(rr, route[0], ig) <==> rr.signals[sig.address].status == Free || ig;
    assert forall j :: 0 < j < |route| ==> !NoSignalBefore(route, rr.road.nodes, j);
  }

  /** The position used for the nodes of the example below. */
  function NodePlace(): Geometry.Position
  {
    Geometry.Position(Geometry.Coord(0, 0, 0), Geometry.North)
  }

  /** A free path signal 1 at node 0, requested by train 7 whose route runs
      from the signal to node 1, the sensor 5; train 3 occupies sensor 5. */
  function ExampleSignal(): Signal
  {
    Signal(1, 0, PathSignal, Free, [], [7], [], [])
  }

  function ExampleTrain(): Train
  {
    Train(7, Stop, 1, Some([Hop(0, false), Hop(1, false)]))
  }

  function ExampleRailroad(): Railroad
  {
    Railroad(
      Graph([SignalNode(1, NodePlace()), SensorNode(5, NodePlace())], []),
      map[7 := ExampleTrain()],
      map[5 := Registered(Sensor(5, Occupied, LevelOccupied, Some(3), Stop), [1])],
      map[1 := ExampleSignal()], map[], map[])
  }

  /** In the example the train's slice for signal 1 is its whole route. */
  lemma ExampleRequestRoute()
    ensures RequestRoute(ExampleTrain(), ExampleRailroad().road.nodes, 1) == Some([0, 1])
  {
    var route := [Hop(0, false), Hop(1, false)];
    var nodes := [SignalNode(1, NodePlace()), SensorNode(5, NodePlace())];
    assert ExampleRailroad().road.nodes == nodes;
    assert FirstSignalWithAddress(route, nodes, 1) == Some(0);
    assert FirstSignalHop(route[1..], nodes) == None;
    assert route[0..2] == route;
    assert Nodes(route) == [0, 1];
  }

  /** In the example every lookup succeeds and the requested slice is the
      whole route. */
  lemma ExampleRequestedRoute()
    ensures LookupsTotal(ExampleRailroad())
    ensures RequestedRoute(ExampleSignal(), ExampleRailroad()) == Some([0, 1])
  {
    ExampleLookupsTotal();
    ExampleRequestRoute();
    var rr := ExampleRailroad();
    assert ExampleSignal().requesters[0] == 7 && rr.trains[7] == ExampleTrain();
  }

  lemma ExampleLookupsTotal()
    ensures LookupsTotal(ExampleRailroad())
  {
    var rr := ExampleRailroad();
    assert rr.trains.Keys == {7};
    forall t, k | t in rr.trains && rr.trains[t].route.Some? && 0 <= k < |rr.trains[t].route.value|
      ensures rr.trains[t].route.value[k].node < |rr.road.nodes|
    {
      assert t == 7 && k < 2;
    }
  }

  /** A free path signal whose requester's block holds an occupied sensor is
      still granted that sensor. */
  lemma PathBehaviourGrantsOccupiedSensor()
    ensures LookupsTotal(ExampleRailroad())
    ensures PathBehaviour(ExampleSignal(), ExampleRailroad()) == Some([5])
    ensures ExampleRailroad().sensors[5].elem.status == Occupied
  {
    var rr := ExampleRailroad();
    ExampleRequestedRoute();
    PathFreeOnOwnRoute(ExampleSignal(), rr);
    assert SensorAddresses([1], rr.road.nodes) == [5];
    assert SensorAddresses([0, 1], rr.road.nodes) == [5];
  }

  /** `path_behaviour` with `path_free` applied to the slice after the
      signal: the sensors up to the next signal are checked, and the next
      signal decides unless it is ignored. */
  function PathBehaviourCorrected(sig: Signal, rr: Railroad): (r: Option<seq<nat>>)
    requires LookupsTotal(rr)
    ensures r.Some? <==>
      && RequestedRoute(sig, rr).Some?
      && IsPathFree(RequestedRoute(sig, rr).value[1..], rr, sig.sigType == PathSignal)
    ensures r.Some? ==> r.value == SensorAddresses(RequestedRoute(sig, rr).value, rr.road.nodes)
  {
    var route :- RequestedRoute(sig, rr);
    if !IsPathFree(route[1..], rr, sig.sigType == PathSignal) then None
    else Some(SensorAddresses(route, rr.road.nodes))
  }

  /** With the correction every sensor the signal hands out is free. */
  lemma PathBehaviourCorrectedGrantsFreeSensors(sig: Signal, rr: Railroad)
    requires LookupsTotal(rr)
    requires PathBehaviourCorrected(sig, rr).Some?
    ensures forall a :: a in PathBehaviourCorrected(sig, rr).value ==> a in rr.sensors && rr.sensors[a].elem.status == Free
  {
    var route := RequestedRoute(sig, rr).value;
    var tail := route[1..];
    var ig := sig.sigType == PathSignal;
    forall a | a in PathBehaviourCorrected(sig, rr).value
      ensures a in rr.sensors && rr.sensors[a].elem.status == Free
    {
      var j :| 0 <= j < |route| && SensorNodeWith(rr.road.nodes, route[j], a);
      assert j > 0;
      assert tail[j - 1] == route[j];
      assert NoSignalBefore(tail, rr.road.nodes, j - 1) by {
        forall i | 0 <= i < j - 1
          ensures !SignalAt(rr.road.nodes, tail[i])
        {
          assert tail[i] == route[i + 1];
        }
      }
      assert NodePasses(rr, tail[j - 1], ig);
    }
  }

  // ---------------------------------------------------------------------
  // drive
  // ---------------------------------------------------------------------

  /** `Signal::drive`: a signal that is not free grants nothing; a block
      signal checks its block's sensors, a path signal the requester's
      route. */
  function Drive(sig: Signal, rr: Railroad, blockSensors: seq<nat>): (r: Option<seq<nat>>)
    requires sig.status == Free && sig.sigType != BlockSignal ==> LookupsTotal(rr)
    ensures sig.status != Free ==> r.None?
    ensures sig.status == Free && sig.sigType == BlockSignal ==>
      (r.Some? <==> BlockClear(blockSensors, rr)) && (r.Some? ==> r.value == blockSensors)
    ensures sig.status == Free && sig.sigType != BlockSignal ==> r == PathBehaviour(sig, rr)
  {
    if sig.status != Free then None
    else match sig.sigType
      case BlockSignal => BlockBehaviour(blockSensors, rr)
      case _ => PathBehaviour(sig, rr)
  }

  /** Whatever a signal grants is made of sensor addresses of the
      railroad's graph or of its block list. */
  lemma DriveGrantsKnownSensors(sig: Signal, rr: Railroad, blockSensors: seq<nat>)
    requires sig.status == Free && sig.sigType != BlockSignal ==> LookupsTotal(rr)
    requires Drive(sig, rr, blockSensors).Some?
    ensures sig.sigType == BlockSignal ==> Drive(sig, rr, blockSensors).value == blockSensors
    ensures sig.sigType != BlockSignal ==> forall a :: a in Drive(sig, rr, blockSensors).value ==>
      exists i :: SensorNodeWith(rr.road.nodes, i, a)
  {
    if sig.sigType != BlockSignal {
      var route := RequestedRoute(sig, rr).value;
      assert Drive(sig, rr, blockSensors).value == SensorAddresses(route, rr.road.nodes);
      forall a | a in Drive(sig, rr, blockSensors).value
        ensures exists i :: SensorNodeWith(rr.road.nodes, i, a)
      {
        var j :| 0 <= j < |route| && SensorNodeWith(rr.road.nodes, route[j], a);
      }
    }
  }
}
