/** The railroad and its builder (src/control/rail_system/railroad.rs): the
    track graph together with the registries of trains, sensors, signals,
    crossings and switches. `Builder` and `Railroad` hold the same data (the
    railroad wraps each element in a mutex), so one record models both. */
module Railroads {
  import opened Primitives
  import opened Speeds
  import opened Geometry
  import opened Elements
  import opened Trains
  import opened TrackGraph

  /** A registry entry of an element that owns several graph nodes. */
  datatype Registered<T> = Registered(elem: T, nodes: seq<nat>)

  datatype Railroad = Railroad(
    road: Graph,
    trains: map<nat, Train>,
    sensors: map<nat, Registered<Sensor>>,
    signals: map<nat, Signal>,
    crossings: map<nat, Cross>,
    switches: map<nat, Registered<Switch>>)

  /** `Builder::new`. */
  function NewBuilder(): (rr: Railroad)
    ensures rr.road.nodes == [] && rr.road.edges == []
    ensures rr.trains == map[] && rr.sensors == map[] && rr.signals == map[]
    ensures rr.crossings == map[] && rr.switches == map[]
  {
    Railroad(Graph([], []), map[], map[], map[], map[], map[])
  }

  // ---------------------------------------------------------------------
  // Well-formedness: degree limits and registries
  // ---------------------------------------------------------------------

  /** How many neighbours a node accepts on each side. */
  function Limit(n: Node): nat
  {
    if n.SwitchNode? then 2 else 1
  }

  /** Every node respects its neighbour limit on both sides. */
  predicate BoundedDegrees(g: Graph)
  {
    forall n :: 0 <= n < |g.nodes| ==>
      Degree(g, n, Incoming) <= Limit(g.nodes[n]) && Degree(g, n, Outgoing) <= Limit(g.nodes[n])
  }

  predicate RoadOk(g: Graph)
  {
    EdgesInRange(g) && BoundedDegrees(g)
  }

  /** The two kinds of node the builder registers per address: sensor and
      station nodes in the sensor registry, switch nodes in the switch
      registry. */
  datatype Kind = SensorKind | SwitchKind

  predicate OfKind(n: Node, kind: Kind)
  {
    match kind
    case SensorKind => IsDriveable(n)
    case SwitchKind => n.SwitchNode?
  }

  /** The address a node of `kind` is registered under. */
  function KindAddress(n: Node, kind: Kind): nat
    requires OfKind(n, kind)
  {
    match kind
    case SensorKind => n.sensor
    case SwitchKind => n.switch
  }

  predicate EntryAt(nodes: seq<Node>, i: nat, kind: Kind, adr: nat)
  {
    i < |nodes| && OfKind(nodes[i], kind) && KindAddress(nodes[i], kind) == adr
  }

  /** Every node index listed under an address is a node of that kind with
      that address. */
  predicate EntriesValid<T>(m: map<nat, Registered<T>>, nodes: seq<Node>, kind: Kind)
  {
    forall adr, k :: adr in m && 0 <= k < |m[adr].nodes| ==> EntryAt(nodes, m[adr].nodes[k], kind, adr)
  }

  /** Every node of the kind is listed under its address. */
  predicate NodesRegistered<T>(m: map<nat, Registered<T>>, nodes: seq<Node>, kind: Kind)
  {
    forall i :: 0 <= i < |nodes| && OfKind(nodes[i], kind) ==>
      KindAddress(nodes[i], kind) in m && i in m[KindAddress(nodes[i], kind)].nodes
  }

  /** The sensor registry lists exactly the sensor and station nodes. */
  predicate SensorsConsistent(rr: Railroad)
  {
    && (forall adr :: adr in rr.sensors ==> rr.sensors[adr].elem.address == adr)
    && EntriesValid(rr.sensors, rr.road.nodes, SensorKind)
    && NodesRegistered(rr.sensors, rr.road.nodes, SensorKind)
  }

  /** The switch registry lists exactly the switch nodes. */
  predicate SwitchesConsistent(rr: Railroad)
  {
    && (forall adr :: adr in rr.switches ==> rr.switches[adr].elem.address == adr)
    && EntriesValid(rr.switches, rr.road.nodes, SwitchKind)
    && NodesRegistered(rr.switches, rr.road.nodes, SwitchKind)
  }

  /** Every registered signal is represented by one signal node, and every
      signal node is the representing node of its signal. */
  predicate SignalsConsistent(rr: Railroad)
  {
    && (forall adr :: adr in rr.signals ==>
          rr.signals[adr].address == adr
          && rr.signals[adr].representingNode < |rr.road.nodes|
          && rr.road.nodes[rr.signals[adr].representingNode].SignalNode?
          && rr.road.nodes[rr.signals[adr].representingNode].signal == adr)
    && (forall i :: 0 <= i < |rr.road.nodes| && rr.road.nodes[i].SignalNode? ==>
          rr.road.nodes[i].signal in rr.signals && rr.signals[rr.road.nodes[i].signal].representingNode == i)
  }

  predicate CrossEntryAt(nodes: seq<Node>, i: nat, adr: nat)
  {
    i < |nodes| && nodes[i] == CrossNode(adr)
  }

  /** Every registered crossing owns its two cross nodes, and every cross
      node belongs to its crossing. */
  predicate CrossingsConsistent(rr: Railroad)
  {
    && (forall adr :: adr in rr.crossings ==>
          rr.crossings[adr].address == adr
          && CrossEntryAt(rr.road.nodes, rr.crossings[adr].nodes.0, adr)
          && CrossEntryAt(rr.road.nodes, rr.crossings[adr].nodes.1, adr))
    && (forall i :: 0 <= i < |rr.road.nodes| && rr.road.nodes[i].CrossNode? ==>
          rr.road.nodes[i].cross in rr.crossings
          && (i == rr.crossings[rr.road.nodes[i].cross].nodes.0 || i == rr.crossings[rr.road.nodes[i].cross].nodes.1))
  }

  predicate RegistriesConsistent(rr: Railroad)
  {
    SensorsConsistent(rr) && SwitchesConsistent(rr) && SignalsConsistent(rr) && CrossingsConsistent(rr)
  }

  /** The invariant the builder keeps. */
  predicate WellFormed(rr: Railroad)
  {
    RoadOk(rr.road) && RegistriesConsistent(rr)
  }

  lemma NewBuilderWellFormed()
    ensures WellFormed(NewBuilder())
  {
  }

  /** Signal addresses are unique among the nodes of a consistent
      railroad. */
  lemma SignalNodesUnique(rr: Railroad, i: nat, j: nat)
    requires SignalsConsistent(rr)
    requires i < |rr.road.nodes| && j < |rr.road.nodes|
    requires rr.road.nodes[i].SignalNode? && rr.road.nodes[j].SignalNode?
    requires rr.road.nodes[i].signal == rr.road.nodes[j].signal
    ensures i == j
  {
  }

  lemma {:induction false} NoEdgesBeyondNodes(edges: seq<Edge>, bound: nat, n: nat)
    requires forall i :: 0 <= i < |edges| ==> edges[i].from < bound && edges[i].to < bound
    requires bound <= n
    ensures CountInto(edges, n) == 0 && CountOutOf(edges, n) == 0
    decreases |edges|
  {
    if edges != [] {
      NoEdgesBeyondNodes(edges[..|edges| - 1], bound, n);
    }
  }

  /** Appending nodes keeps the degree limits: the new nodes have no
      edges. */
  lemma AppendNodesKeepsRoadOk(g: Graph, extra: seq<Node>)
    requires RoadOk(g)
    ensures RoadOk(g.(nodes := g.nodes + extra))
  {
    var h := g.(nodes := g.nodes + extra);
    forall n | |g.nodes| <= n < |h.nodes|
      ensures Degree(h, n, Incoming) == 0 && Degree(h, n, Outgoing) == 0
    {
      NoEdgesBeyondNodes(g.edges, |g.nodes|, n);
    }
  }

  // ---------------------------------------------------------------------
  // Adding elements
  // ---------------------------------------------------------------------

  /** Append node indices to an address's registry entry, creating the entry
      with `initial` if the address is new. */
  function Register<T>(m: map<nat, Registered<T>>, adr: nat, initial: T, idx: seq<nat>): (r: map<nat, Registered<T>>)
    ensures adr in r && r[adr].nodes == (if adr in m then m[adr].nodes else []) + idx
    ensures r[adr].elem == (if adr in m then m[adr].elem else initial)
    ensures forall k :: k != adr ==> (k in r <==> k in m)
    ensures forall k :: k != adr && k in m ==> r[k] == m[k]
  {
    if adr in m then m[adr := m[adr].(nodes := m[adr].nodes + idx)]
    else m[adr := Registered(initial, idx)]
  }

  /** `Builder::add_sensor`. */
  function AddSensor(rr: Railroad, adr: nat, maxSpeed: Speed, pos: Position): (r: (Railroad, nat))
    ensures r.1 == |rr.road.nodes|
    ensures r.0.road == Graph(rr.road.nodes + [SensorNode(adr, pos)], rr.road.edges)
    ensures r.0.sensors == Register(rr.sensors, adr, NewSensor(adr, maxSpeed), [r.1])
    ensures r.0 == rr.(road := r.0.road, sensors := r.0.sensors)
  {
    var (g, idx) := AddNode(rr.road, SensorNode(adr, pos));
    (rr.(road := g, sensors := Register(rr.sensors, adr, NewSensor(adr, maxSpeed), [idx])), idx)
  }

  /** `Builder::add_bidirectional_sensor`: two nodes, one per travel
      direction. */
  function AddBidirectionalSensor(rr: Railroad, adr: nat, maxSpeed: Speed, pos: Position): (r: (Railroad, (nat, nat)))
    ensures r.1 == (|rr.road.nodes|, |rr.road.nodes| + 1)
    ensures r.0.road == Graph(rr.road.nodes + [SensorNode(adr, pos), SensorNode(adr, pos)], rr.road.edges)
    ensures r.0.sensors == Register(rr.sensors, adr, NewSensor(adr, maxSpeed), [r.1.0, r.1.1])
    ensures r.0 == rr.(road := r.0.road, sensors := r.0.sensors)
  {
    var (g1, a) := AddNode(rr.road, SensorNode(adr, pos));
    var (g2, b) := AddNode(g1, SensorNode(adr, pos));
    (rr.(road := g2, sensors := Register(rr.sensors, adr, NewSensor(adr, maxSpeed), [a, b])), (a, b))
  }

  /** `Builder::add_station`: a station shares the sensor registry. */
  function AddStation(rr: Railroad, adr: nat, maxSpeed: Speed, pos: Position): (r: (Railroad, nat))
    ensures r.1 == |rr.road.nodes|
    ensures r.0.road == Graph(rr.road.nodes + [StationNode(adr, pos)], rr.road.edges)
    ensures r.0.sensors == Register(rr.sensors, adr, NewSensor(adr, maxSpeed), [r.1])
    ensures r.0 == rr.(road := r.0.road, sensors := r.0.sensors)
  {
    var (g, idx) := AddNode(rr.road, StationNode(adr, pos));
    (rr.(road := g, sensors := Register(rr.sensors, adr, NewSensor(adr, maxSpeed), [idx])), idx)
  }

  /** `Builder::add_bidirectional_station`. */
  function AddBidirectionalStation(rr: Railroad, adr: nat, maxSpeed: Speed, pos: Position): (r: (Railroad, (nat, nat)))
    ensures r.1 == (|rr.road.nodes|, |rr.road.nodes| + 1)
    ensures r.0.road == Graph(rr.road.nodes + [StationNode(adr, pos), StationNode(adr, pos)], rr.road.edges)
    ensures r.0.sensors == Register(rr.sensors, adr, NewSensor(adr, maxSpeed), [r.1.0, r.1.1])
    ensures r.0 == rr.(road := r.0.road, sensors := r.0.sensors)
  {
    var (g1, a) := AddNode(rr.road, StationNode(adr, pos));
    var (g2, b) := AddNode(g1, StationNode(adr, pos));
    (rr.(road := g2, sensors := Register(rr.sensors, adr, NewSensor(adr, maxSpeed), [a, b])), (a, b))
  }

  /** `Builder::add_switch`: a new switch node has no default connection. */
  function AddSwitch(rr: Railroad, adr: nat, pos: Position, kind: SwitchType): (r: (Railroad, nat))
    ensures r.1 == |rr.road.nodes|
    ensures r.0.road == Graph(rr.road.nodes + [SwitchNode(adr, pos, kind, None, Incoming)], rr.road.edges)
    ensures r.0.switches == Register(rr.switches, adr, NewSwitch(adr), [r.1])
    ensures r.0 == rr.(road := r.0.road, switches := r.0.switches)
  {
    var (g, idx) := AddNode(rr.road, SwitchNode(adr, pos, kind, None, Incoming));
    (rr.(road := g, switches := Register(rr.switches, adr, NewSwitch(adr), [idx])), idx)
  }

  /** `Builder::add_bidirectional_switch`. */
  function AddBidirectionalSwitch(rr: Railroad, adr: nat, pos: Position, kind: SwitchType): (r: (Railroad, (nat, nat)))
    ensures r.1 == (|rr.road.nodes|, |rr.road.nodes| + 1)
    ensures r.0.road == Graph(rr.road.nodes + [SwitchNode(adr, pos, kind, None, Outgoing), SwitchNode(adr, pos, kind, None, Outgoing)], rr.road.edges)
    ensures r.0.switches == Register(rr.switches, adr, NewSwitch(adr), [r.1.0, r.1.1])
    ensures r.0 == rr.(road := r.0.road, switches := r.0.switches)
  {
    var (g1, a) := AddNode(rr.road, SwitchNode(adr, pos, kind, None, Outgoing));
    var (g2, b) := AddNode(g1, SwitchNode(adr, pos, kind, None, Outgoing));
    (rr.(road := g2, switches := Register(rr.switches, adr, NewSwitch(adr), [a, b])), (a, b))
  }

  /** `Builder::add_signal`: an address already registered is rejected and
      nothing changes. */
  function AddSignal(rr: Railroad, adr: nat, sigType: SignalType, pos: Position): (r: (Railroad, Option<nat>))
    ensures r.1.None? <==> adr in rr.signals
    ensures r.1.None? ==> r.0 == rr
    ensures r.1.Some? ==>
      && r.1.value == |rr.road.nodes|
      && r.0.road == Graph(rr.road.nodes + [SignalNode(adr, pos)], rr.road.edges)
      && r.0.signals == rr.signals[adr := NewSignal(adr, sigType, r.1.value)]
      && r.0 == rr.(road := r.0.road, signals := r.0.signals)
  {
    if adr in rr.signals then (rr, None)
    else
      var (g, idx) := AddNode(rr.road, SignalNode(adr, pos));
      (rr.(road := g, signals := rr.signals[adr := NewSignal(adr, sigType, idx)]), Some(idx))
  }

  /** `Builder::add_crossing`: an address already registered is rejected and
      nothing changes; otherwise two cross nodes are added. */
  function AddCrossing(rr: Railroad, adr: nat, pos: Position): (r: (Railroad, Option<(nat, nat)>))
    ensures r.1.None? <==> adr in rr.crossings
    ensures r.1.None? ==> r.0 == rr
    ensures r.1.Some? ==>
      && r.1.value == (|rr.road.nodes|, |rr.road.nodes| + 1)
      && r.0.road == Graph(rr.road.nodes + [CrossNode(adr), CrossNode(adr)], rr.road.edges)
      && r.0.crossings == rr.crossings[adr := Cross(adr, r.1.value, pos)]
      && r.0 == rr.(road := r.0.road, crossings := r.0.crossings)
  {
    if adr in rr.crossings then (rr, None)
    else
      var (g1, a) := AddNode(rr.road, CrossNode(adr));
      var (g2, b) := AddNode(g1, CrossNode(adr));
      (rr.(road := g2, crossings := rr.crossings[adr := Cross(adr, (a, b), pos)]), Some((a, b)))
  }

  /** Registering fresh nodes of the kind keeps the listed entries valid. */
  lemma RegisterKeepsEntriesValid<T>(m: map<nat, Registered<T>>, nodes: seq<Node>, kind: Kind, adr: nat, initial: T, extra: seq<Node>, idx: seq<nat>)
    requires EntriesValid(m, nodes, kind)
    requires |idx| == |extra|
    requires forall k :: 0 <= k < |extra| ==> idx[k] == |nodes| + k && EntryAt(extra, k, kind, adr)
    ensures EntriesValid(Register(m, adr, initial, idx), nodes + extra, kind)
  {
    var r := Register(m, adr, initial, idx);
    forall a, k | a in r && 0 <= k < |r[a].nodes|
      ensures EntryAt(nodes + extra, r[a].nodes[k], kind, a)
    {
      if a == adr {
        RegisteredEntryValid(m, nodes, kind, adr, initial, extra, idx, k);
      } else {
        OtherEntryValid(m, nodes, kind, adr, initial, extra, idx, a, k);
      }
    }
  }

  /** An entry under the registered address is an old entry or a new node. */
  lemma RegisteredEntryValid<T>(m: map<nat, Registered<T>>, nodes: seq<Node>, kind: Kind, adr: nat, initial: T, extra: seq<Node>, idx: seq<nat>, k: nat)
    requires EntriesValid(m, nodes, kind)
    requires |idx| == |extra|
    requires forall k :: 0 <= k < |extra| ==> idx[k] == |nodes| + k && EntryAt(extra, k, kind, adr)
    requires k < |Register(m, adr, initial, idx)[adr].nodes|
    ensures EntryAt(nodes + extra, Register(m, adr, initial, idx)[adr].nodes[k], kind, adr)
  {
    var prior := if adr in m then m[adr].nodes else [];
    var all := Register(m, adr, initial, idx)[adr].nodes;
    assert all == prior + idx;
    if k >= |prior| {
      assert all[k] == idx[k - |prior|];
      AppendedEntryValid(nodes, kind, adr, extra, idx, k - |prior|);
    } else {
      assert all[k] == m[adr].nodes[k];
      assert EntryAt(nodes, m[adr].nodes[k], kind, adr);
      KeptEntryValid(nodes, kind, adr, extra, m[adr].nodes[k]);
    }
  }

  /** A new node is an entry of its address in the extended node list. */
  lemma AppendedEntryValid(nodes: seq<Node>, kind: Kind, adr: nat, extra: seq<Node>, idx: seq<nat>, j: nat)
    requires |idx| == |extra| && j < |idx|
    requires forall k :: 0 <= k < |extra| ==> idx[k] == |nodes| + k && EntryAt(extra, k, kind, adr)
    ensures EntryAt(nodes + extra, idx[j], kind, adr)
  {
    assert EntryAt(extra, j, kind, adr);
    assert (nodes + extra)[idx[j]] == extra[j];
  }

  /** An old entry stays an entry when nodes are appended. */
  lemma KeptEntryValid(nodes: seq<Node>, kind: Kind, adr: nat, extra: seq<Node>, i: nat)
    requires EntryAt(nodes, i, kind, adr)
    ensures EntryAt(nodes + extra, i, kind, adr)
  {
    assert (nodes + extra)[i] == nodes[i];
  }

  /** An entry under any other address is untouched and stays valid. */
  lemma OtherEntryValid<T>(m: map<nat, Registered<T>>, nodes: seq<Node>, kind: Kind, adr: nat, initial: T, extra: seq<Node>, idx: seq<nat>, a: nat, k: nat)
    requires EntriesValid(m, nodes, kind)
    requires a != adr && a in Register(m, adr, initial, idx)
    requires k < |Register(m, adr, initial, idx)[a].nodes|
    ensures EntryAt(nodes + extra, Register(m, adr, initial, idx)[a].nodes[k], kind, a)
  {
    assert Register(m, adr, initial, idx)[a] == m[a];
    assert EntryAt(nodes, m[a].nodes[k], kind, a);
    KeptEntryValid(nodes, kind, a, extra, m[a].nodes[k]);
  }

  /** Registering fresh nodes of the kind under their address keeps every
      node of the kind listed. */
  lemma RegisterKeepsNodesRegistered<T>(m: map<nat, Registered<T>>, nodes: seq<Node>, kind: Kind, adr: nat, initial: T, extra: seq<Node>, idx: seq<nat>)
    requires NodesRegistered(m, nodes, kind)
    requires |idx| == |extra|
    requires forall k :: 0 <= k < |extra| ==> idx[k] == |nodes| + k && EntryAt(extra, k, kind, adr)
    ensures NodesRegistered(Register(m, adr, initial, idx), nodes + extra, kind)
  {
    var r := Register(m, adr, initial, idx);
    var all := nodes + extra;
    forall i | 0 <= i < |all| && OfKind(all[i], kind)
      ensures KindAddress(all[i], kind) in r && i in r[KindAddress(all[i], kind)].nodes
    {
      if i >= |nodes| {
        var j := i - |nodes|;
        assert all[i] == extra[j];
        assert idx[j] == i;
        assert r[adr].nodes[|r[adr].nodes| - |idx| + j] == i;
      } else {
        assert all[i] == nodes[i];
        var a := KindAddress(nodes[i], kind);
        var k :| 0 <= k < |m[a].nodes| && m[a].nodes[k] == i;
        assert r[a].nodes[k] == i;
      }
    }
  }

  /** Appending nodes that are not of the kind keeps its registry valid. */
  lemma AppendOtherKindKeepsRegistry<T>(m: map<nat, Registered<T>>, nodes: seq<Node>, kind: Kind, extra: seq<Node>)
    requires EntriesValid(m, nodes, kind) && NodesRegistered(m, nodes, kind)
    requires forall k :: 0 <= k < |extra| ==> !OfKind(extra[k], kind)
    ensures EntriesValid(m, nodes + extra, kind) && NodesRegistered(m, nodes + extra, kind)
  {
    var all := nodes + extra;
    assert forall i :: 0 <= i < |nodes| ==> all[i] == nodes[i];
    assert forall i :: |nodes| <= i < |all| ==> all[i] == extra[i - |nodes|];
  }

  /** Appending nodes that are not signals keeps the signal registry
      consistent. */
  lemma AppendKeepsSignals(rr: Railroad, r: Railroad, extra: seq<Node>)
    requires SignalsConsistent(rr)
    requires r.road.nodes == rr.road.nodes + extra && r.signals == rr.signals
    requires forall k :: 0 <= k < |extra| ==> !extra[k].SignalNode?
    ensures SignalsConsistent(r)
  {
    var n := |rr.road.nodes|;
    assert forall i :: 0 <= i < n ==> r.road.nodes[i] == rr.road.nodes[i];
    assert forall i :: n <= i < |r.road.nodes| ==> r.road.nodes[i] == extra[i - n];
  }

  /** Appending nodes that are not crossings keeps the crossing registry
      consistent. */
  lemma AppendKeepsCrossings(rr: Railroad, r: Railroad, extra: seq<Node>)
    requires CrossingsConsistent(rr)
    requires r.road.nodes == rr.road.nodes + extra && r.crossings == rr.crossings
    requires forall k :: 0 <= k < |extra| ==> !extra[k].CrossNode?
    ensures CrossingsConsistent(r)
  {
    var n := |rr.road.nodes|;
    assert forall i :: 0 <= i < n ==> r.road.nodes[i] == rr.road.nodes[i];
    assert forall i :: n <= i < |r.road.nodes| ==> r.road.nodes[i] == extra[i - n];
  }

  /** Appending nodes that are neither sensors, stations nor switches keeps
      those two registries consistent. */
  lemma AppendKeepsSensorsAndSwitches(rr: Railroad, r: Railroad, extra: seq<Node>)
    requires SensorsConsistent(rr) && SwitchesConsistent(rr)
    requires r.road.nodes == rr.road.nodes + extra && r.sensors == rr.sensors && r.switches == rr.switches
    requires forall k :: 0 <= k < |extra| ==> !IsDriveable(extra[k]) && !extra[k].SwitchNode?
    ensures SensorsConsistent(r) && SwitchesConsistent(r)
  {
    assert forall k :: 0 <= k < |extra| ==> !OfKind(extra[k], SensorKind) && !OfKind(extra[k], SwitchKind);
    AppendOtherKindKeepsRegistry(rr.sensors, rr.road.nodes, SensorKind, extra);
    AppendOtherKindKeepsRegistry(rr.switches, rr.road.nodes, SwitchKind, extra);
  }

  lemma RegisterKeepsSensorsConsistent(rr: Railroad, r: Railroad, adr: nat, sensor: Sensor, extra: seq<Node>, idx: seq<nat>)
    requires SensorsConsistent(rr)
    requires r.road.nodes == rr.road.nodes + extra && |idx| == |extra|
    requires forall k :: 0 <= k < |extra| ==> idx[k] == |rr.road.nodes| + k && IsDriveable(extra[k]) && extra[k].sensor == adr
    requires sensor.address == adr && r.sensors == Register(rr.sensors, adr, sensor, idx)
    ensures SensorsConsistent(r)
  {
    assert forall k :: 0 <= k < |extra| ==> EntryAt(extra, k, SensorKind, adr);
    RegisterKeepsEntriesValid(rr.sensors, rr.road.nodes, SensorKind, adr, sensor, extra, idx);
    RegisterKeepsNodesRegistered(rr.sensors, rr.road.nodes, SensorKind, adr, sensor, extra, idx);
    RegisterSensorKeepsAddresses(rr.sensors, adr, sensor, idx);
  }

  /** Every sensor stays registered under its own address. */
  lemma RegisterSensorKeepsAddresses(m: map<nat, Registered<Sensor>>, adr: nat, sensor: Sensor, idx: seq<nat>)
    requires forall a :: a in m ==> m[a].elem.address == a
    requires sensor.address == adr
    ensures forall a :: a in Register(m, adr, sensor, idx) ==> Register(m, adr, sensor, idx)[a].elem.address == a
  {
  }

  /** Registering appended switch nodes keeps the switch registry
      consistent. */
  lemma RegisterKeepsSwitchesConsistent(rr: Railroad, r: Railroad, adr: nat, sw: Switch, extra: seq<Node>, idx: seq<nat>)
    requires SwitchesConsistent(rr)
    requires r.road.nodes == rr.road.nodes + extra && |idx| == |extra|
    requires forall k :: 0 <= k < |extra| ==> idx[k] == |rr.road.nodes| + k && extra[k].SwitchNode? && extra[k].switch == adr
    requires sw.address == adr && r.switches == Register(rr.switches, adr, sw, idx)
    ensures SwitchesConsistent(r)
  {
    assert forall k :: 0 <= k < |extra| ==> EntryAt(extra, k, SwitchKind, adr);
    RegisterKeepsEntriesValid(rr.switches, rr.road.nodes, SwitchKind, adr, sw, extra, idx);
    RegisterKeepsNodesRegistered(rr.switches, rr.road.nodes, SwitchKind, adr, sw, extra, idx);
    RegisterSwitchKeepsAddresses(rr.switches, adr, sw, idx);
  }

  /** Every switch stays registered under its own address. */
  lemma RegisterSwitchKeepsAddresses(m: map<nat, Registered<Switch>>, adr: nat, sw: Switch, idx: seq<nat>)
    requires forall a :: a in m ==> m[a].elem.address == a
    requires sw.address == adr
    ensures forall a :: a in Register(m, adr, sw, idx) ==> Register(m, adr, sw, idx)[a].elem.address == a
  {
  }

  /** Switch nodes leave the sensor registry consistent. */
  lemma AppendSwitchNodesKeepsSensors(rr: Railroad, r: Railroad, extra: seq<Node>)
    requires SensorsConsistent(rr)
    requires r.road.nodes == rr.road.nodes + extra && r.sensors == rr.sensors
    requires forall k :: 0 <= k < |extra| ==> extra[k].SwitchNode?
    ensures SensorsConsistent(r)
  {
    assert forall k :: 0 <= k < |extra| ==> !OfKind(extra[k], SensorKind);
    AppendOtherKindKeepsRegistry(rr.sensors, rr.road.nodes, SensorKind, extra);
  }

  /** Registering appended sensor or station nodes keeps the railroad well
      formed. */
  lemma RegisterSensorNodesKeepsWellFormed(rr: Railroad, r: Railroad, adr: nat, sensor: Sensor, extra: seq<Node>, idx: seq<nat>)
    requires WellFormed(rr)
    requires r.road == Graph(rr.road.nodes + extra, rr.road.edges) && |idx| == |extra|
    requires forall k :: 0 <= k < |extra| ==> idx[k] == |rr.road.nodes| + k && IsDriveable(extra[k]) && extra[k].sensor == adr
    requires r.signals == rr.signals && r.crossings == rr.crossings && r.switches == rr.switches
    requires sensor.address == adr && r.sensors == Register(rr.sensors, adr, sensor, idx)
    ensures WellFormed(r)
  {
    AppendNodesKeepsRoadOk(rr.road, extra);
    assert RoadOk(r.road);
    AppendKeepsSignals(rr, r, extra);
    AppendKeepsCrossings(rr, r, extra);
    RegisterKeepsSensorsConsistent(rr, r, adr, sensor, extra, idx);
    AppendSensorNodesKeepsSwitches(rr, r, extra);
  }

  /** Sensor and station nodes leave the switch registry consistent. */
  lemma AppendSensorNodesKeepsSwitches(rr: Railroad, r: Railroad, extra: seq<Node>)
    requires SwitchesConsistent(rr)
    requires r.road.nodes == rr.road.nodes + extra && r.switches == rr.switches
    requires forall k :: 0 <= k < |extra| ==> IsDriveable(extra[k])
    ensures SwitchesConsistent(r)
  {
    assert forall k :: 0 <= k < |extra| ==> !OfKind(extra[k], SwitchKind);
    AppendOtherKindKeepsRegistry(rr.switches, rr.road.nodes, SwitchKind, extra);
  }

  /** Registering appended switch nodes keeps the railroad well formed. */
  lemma RegisterSwitchNodesKeepsWellFormed(rr: Railroad, r: Railroad, adr: nat, sw: Switch, extra: seq<Node>, idx: seq<nat>)
    requires WellFormed(rr)
    requires r.road == Graph(rr.road.nodes + extra, rr.road.edges) && |idx| == |extra|
    requires forall k :: 0 <= k < |extra| ==> idx[k] == |rr.road.nodes| + k && extra[k].SwitchNode? && extra[k].switch == adr
    requires r.signals == rr.signals && r.crossings == rr.crossings && r.sensors == rr.sensors
    requires sw.address == adr && r.switches == Register(rr.switches, adr, sw, idx)
    ensures WellFormed(r)
  {
    AppendNodesKeepsRoadOk(rr.road, extra);
    assert RoadOk(r.road);
    AppendKeepsSignals(rr, r, extra);
    AppendKeepsCrossings(rr, r, extra);
    RegisterKeepsSwitchesConsistent(rr, r, adr, sw, extra, idx);
    AppendSwitchNodesKeepsSensors(rr, r, extra);
  }

  /** Every way of adding a sensor or a station keeps the railroad well
      formed. */
  lemma AddSensorKeepsWellFormed(rr: Railroad, adr: nat, maxSpeed: Speed, pos: Position)
    requires WellFormed(rr)
    ensures WellFormed(AddSensor(rr, adr, maxSpeed, pos).0)
    ensures WellFormed(AddBidirectionalSensor(rr, adr, maxSpeed, pos).0)
    ensures WellFormed(AddStation(rr, adr, maxSpeed, pos).0)
    ensures WellFormed(AddBidirectionalStation(rr, adr, maxSpeed, pos).0)
  {
    SingleSensorKeepsWellFormed(rr, adr, maxSpeed, pos, false);
    SingleSensorKeepsWellFormed(rr, adr, maxSpeed, pos, true);
    PairedSensorKeepsWellFormed(rr, adr, maxSpeed, pos, false);
    PairedSensorKeepsWellFormed(rr, adr, maxSpeed, pos, true);
  }

  /** One new sensor or station node keeps the railroad well formed. */
  lemma SingleSensorKeepsWellFormed(rr: Railroad, adr: nat, maxSpeed: Speed, pos: Position, station: bool)
    requires WellFormed(rr)
    ensures !station ==> WellFormed(AddSensor(rr, adr, maxSpeed, pos).0)
    ensures station ==> WellFormed(AddStation(rr, adr, maxSpeed, pos).0)
  {
    var node := if station then StationNode(adr, pos) else SensorNode(adr, pos);
    var r := if station then AddStation(rr, adr, maxSpeed, pos).0 else AddSensor(rr, adr, maxSpeed, pos).0;
    RegisterSensorNodesKeepsWellFormed(rr, r, adr, NewSensor(adr, maxSpeed), [node], [|rr.road.nodes|]);
  }

  /** Two new sensor or station nodes keep the railroad well formed. */
  lemma PairedSensorKeepsWellFormed(rr: Railroad, adr: nat, maxSpeed: Speed, pos: Position, station: bool)
    requires WellFormed(rr)
    ensures !station ==> WellFormed(AddBidirectionalSensor(rr, adr, maxSpeed, pos).0)
    ensures station ==> WellFormed(AddBidirectionalStation(rr, adr, maxSpeed, pos).0)
  {
    var n := |rr.road.nodes|;
    var node := if station then StationNode(adr, pos) else SensorNode(adr, pos);
    var r := if station then AddBidirectionalStation(rr, adr, maxSpeed, pos).0 else AddBidirectionalSensor(rr, adr, maxSpeed, pos).0;
    RegisterSensorNodesKeepsWellFormed(rr, r, adr, NewSensor(adr, maxSpeed), [node, node], [n, n + 1]);
  }

  /** Both ways of adding a switch keep the railroad well formed. */
  lemma AddSwitchKeepsWellFormed(rr: Railroad, adr: nat, pos: Position, kind: SwitchType)
    requires WellFormed(rr)
    ensures WellFormed(AddSwitch(rr, adr, pos, kind).0)
    ensures WellFormed(AddBidirectionalSwitch(rr, adr, pos, kind).0)
  {
    var n := |rr.road.nodes|;
    var s := NewSwitch(adr);
    assert WellFormed(AddSwitch(rr, adr, pos, kind).0) by {
      RegisterSwitchNodesKeepsWellFormed(rr, AddSwitch(rr, adr, pos, kind).0, adr, s,
        [SwitchNode(adr, pos, kind, None, Incoming)], [n]);
    }
    assert WellFormed(AddBidirectionalSwitch(rr, adr, pos, kind).0) by {
      RegisterSwitchNodesKeepsWellFormed(rr, AddBidirectionalSwitch(rr, adr, pos, kind).0, adr, s,
        [SwitchNode(adr, pos, kind, None, Outgoing), SwitchNode(adr, pos, kind, None, Outgoing)], [n, n + 1]);
    }
  }

  /** Adding a signal keeps the railroad well formed. */
  lemma AddSignalKeepsWellFormed(rr: Railroad, adr: nat, sigType: SignalType, pos: Position)
    requires WellFormed(rr)
    ensures WellFormed(AddSignal(rr, adr, sigType, pos).0)
  {
    var r := AddSignal(rr, adr, sigType, pos);
    if r.1.Some? {
      var extra := [SignalNode(adr, pos)];
      AppendNodesKeepsRoadOk(rr.road, extra);
      assert RoadOk(r.0.road);
      AppendKeepsSensorsAndSwitches(rr, r.0, extra);
      AppendKeepsCrossings(rr, r.0, extra);
      AddSignalKeepsSignals(rr, r.0, adr, sigType, pos);
    }
  }

  /** The new signal node represents the new signal. */
  lemma AddSignalKeepsSignals(rr: Railroad, r: Railroad, adr: nat, sigType: SignalType, pos: Position)
    requires SignalsConsistent(rr) && adr !in rr.signals
    requires r.road.nodes == rr.road.nodes + [SignalNode(adr, pos)]
    requires r.signals == rr.signals[adr := NewSignal(adr, sigType, |rr.road.nodes|)]
    ensures SignalsConsistent(r)
  {
    assert forall i :: 0 <= i < |rr.road.nodes| ==> r.road.nodes[i] == rr.road.nodes[i];
  }

  /** Adding a crossing keeps the railroad well formed. */
  lemma AddCrossingKeepsWellFormed(rr: Railroad, adr: nat, pos: Position)
    requires WellFormed(rr)
    ensures WellFormed(AddCrossing(rr, adr, pos).0)
  {
    var r := AddCrossing(rr, adr, pos);
    if r.1.Some? {
      var extra := [CrossNode(adr), CrossNode(adr)];
      AppendNodesKeepsRoadOk(rr.road, extra);
      assert RoadOk(r.0.road);
      AppendKeepsSensorsAndSwitches(rr, r.0, extra);
      AppendKeepsSignals(rr, r.0, extra);
      AddCrossingKeepsCrossings(rr, r.0, adr, pos);
    }
  }

  /** The two new cross nodes belong to the new crossing. */
  lemma AddCrossingKeepsCrossings(rr: Railroad, r: Railroad, adr: nat, pos: Position)
    requires CrossingsConsistent(rr) && adr !in rr.crossings
    requires r.road.nodes == rr.road.nodes + [CrossNode(adr), CrossNode(adr)]
    requires r.crossings == rr.crossings[adr := Cross(adr, (|rr.road.nodes|, |rr.road.nodes| + 1), pos)]
    ensures CrossingsConsistent(r)
  {
    var n := |rr.road.nodes|;
    assert forall i :: 0 <= i < n ==> r.road.nodes[i] == rr.road.nodes[i];
    assert r.road.nodes[n] == CrossNode(adr) && r.road.nodes[n + 1] == CrossNode(adr);
  }

  /** `Builder::add_signals`: add each signal in turn and map the addresses
      that were accepted to their nodes. */
  function AddSignals(rr: Railroad, sigs: seq<(nat, SignalType, Position)>): (r: (Railroad, map<nat, nat>))
    ensures |rr.road.nodes| <= |r.0.road.nodes| && r.0.road.nodes[..|rr.road.nodes|] == rr.road.nodes
    ensures r.0.road.edges == rr.road.edges
    ensures rr.signals.Keys <= r.0.signals.Keys
    ensures forall adr :: adr in r.1 <==> adr !in rr.signals && exists i :: 0 <= i < |sigs| && sigs[i].0 == adr
    ensures forall adr :: adr in r.1 ==>
      |rr.road.nodes| <= r.1[adr] < |r.0.road.nodes| && r.0.road.nodes[r.1[adr]].SignalNode? && r.0.road.nodes[r.1[adr]].signal == adr
    decreases |sigs|
  {
    if sigs == [] then (rr, map[])
    else
      var (rr1, added) := AddSignal(rr, sigs[0].0, sigs[0].1, sigs[0].2);
      var (rr2, m) := AddSignals(rr1, sigs[1..]);
      AddSignalsKeysStep(rr, sigs, m);
      AddSignalsPlacedStep(rr, sigs[0], rr2, m);
      if added.Some? then (rr2, m[sigs[0].0 := added.value]) else (rr2, m)
  }

  /** Where `AddSignals` puts the nodes: one signal added in front of the
      rest keeps the older nodes as a prefix and places its own node below
      every node the rest adds. */
  lemma AddSignalsPlacedStep(rr: Railroad, sig: (nat, SignalType, Position), rr2: Railroad, m: map<nat, nat>)
    requires var rr1 := AddSignal(rr, sig.0, sig.1, sig.2).0;
      |rr1.road.nodes| <= |rr2.road.nodes| && rr2.road.nodes[..|rr1.road.nodes|] == rr1.road.nodes
      && forall adr :: adr in m ==>
        |rr1.road.nodes| <= m[adr] < |rr2.road.nodes| && rr2.road.nodes[m[adr]].SignalNode? && rr2.road.nodes[m[adr]].signal == adr
    ensures var added := AddSignal(rr, sig.0, sig.1, sig.2).1;
      var m' := if added.Some? then m[sig.0 := added.value] else m;
      |rr.road.nodes| <= |rr2.road.nodes| && rr2.road.nodes[..|rr.road.nodes|] == rr.road.nodes
      && forall adr :: adr in m' ==>
        |rr.road.nodes| <= m'[adr] < |rr2.road.nodes| && rr2.road.nodes[m'[adr]].SignalNode? && rr2.road.nodes[m'[adr]].signal == adr
  {
    var (rr1, added) := AddSignal(rr, sig.0, sig.1, sig.2);
    assert rr1.road.nodes[..|rr.road.nodes|] == rr.road.nodes;
    assert rr2.road.nodes[..|rr.road.nodes|] == rr2.road.nodes[..|rr1.road.nodes|][..|rr.road.nodes|];
    if added.Some? {
      assert rr2.road.nodes[added.value] == rr2.road.nodes[..|rr1.road.nodes|][added.value] == rr1.road.nodes[added.value];
    }
  }

  /** The addresses `AddSignals` maps: the first signal's when it is new,
      plus those the rest of the list maps. */
  lemma AddSignalsKeysStep(rr: Railroad, sigs: seq<(nat, SignalType, Position)>, m: map<nat, nat>)
    requires sigs != []
    requires forall adr :: adr in m <==>
      adr !in AddSignal(rr, sigs[0].0, sigs[0].1, sigs[0].2).0.signals && exists i :: 0 <= i < |sigs[1..]| && sigs[1..][i].0 == adr
    ensures var added := AddSignal(rr, sigs[0].0, sigs[0].1, sigs[0].2).1;
      var m' := if added.Some? then m[sigs[0].0 := added.value] else m;
      forall adr :: adr in m' <==> adr !in rr.signals && exists i :: 0 <= i < |sigs| && sigs[i].0 == adr
  {
    assert forall i :: 1 <= i < |sigs| ==> sigs[i] == sigs[1..][i - 1];
  }

  // ---------------------------------------------------------------------
  // Connecting nodes
  // ---------------------------------------------------------------------

  /** The inner `switch_max_neighbours` of `can_add_neighbour`. */
  function SwitchMaxNeighbours(ins: nat, out: nat, dir: EdgeDir): (r: bool)
    ensures r <==> (dir == Incoming ==> ins < 2) && (dir == Outgoing ==> out < 2)
  {
    if ins < 2 && out < 2 then true
    else !((ins >= 2 && dir == Incoming) || (out >= 2 && dir == Outgoing))
  }

  /** `Builder::can_add_neighbour`: `None` for a missing node; otherwise
      whether the node still has room on side `dir`. */
  function CanAddNeighbour(g: Graph, n: nat, dir: EdgeDir): (r: Option<bool>)
    ensures r.None? <==> n >= |g.nodes|
    ensures r.Some? ==> (r.value <==> Degree(g, n, dir) < Limit(g.nodes[n]))
  {
    var ins := Degree(g, n, Incoming);
    var out := Degree(g, n, Outgoing);
    var node :- NodeAt(g.nodes, n);
    if node.SwitchNode? then Some(SwitchMaxNeighbours(ins, out, dir))
    else Some((dir == Incoming && ins < 1) || (dir == Outgoing && out < 1))
  }

  /** `Builder::connect`: add or update the edge `from -> to` when `from`
      has room for an outgoing and `to` for an incoming neighbour. */
  function Connect(rr: Railroad, from: nat, to: nat, rails: seq<Rail>): (r: (Railroad, Option<nat>))
    ensures r.1.Some? <==> CanAddNeighbour(rr.road, from, Outgoing) == Some(true) && CanAddNeighbour(rr.road, to, Incoming) == Some(true)
    ensures r.1.None? ==> r.0 == rr
    ensures r.1.Some? ==> r.0 == rr.(road := r.0.road) && r.0.road.nodes == rr.road.nodes
    ensures r.1.Some? ==> r.1.value < |r.0.road.edges| && r.0.road.edges[r.1.value] == Edge(from, to, rails)
  {
    match CanAddNeighbour(rr.road, from, Outgoing)
    case None => (rr, None)
    case Some(okFrom) =>
      if !okFrom then (rr, None)
      else match CanAddNeighbour(rr.road, to, Incoming)
        case None => (rr, None)
        case Some(okTo) =>
          if !okTo then (rr, None)
          else
            var (g, e) := UpdateEdge(rr.road, from, to, rails);
            (rr.(road := g), Some(e))
  }

  /** `connect` keeps every edge between existing nodes and every node within
      its neighbour limit. */
  lemma ConnectKeepsRoadOk(rr: Railroad, from: nat, to: nat, rails: seq<Rail>)
    requires RoadOk(rr.road)
    ensures RoadOk(Connect(rr, from, to, rails).0.road)
    ensures RegistriesConsistent(rr) ==> RegistriesConsistent(Connect(rr, from, to, rails).0)
  {
    var r := Connect(rr, from, to, rails);
    if r.1.Some? {
      var h := r.0.road;
      UpdateEdgeInRange(rr.road, from, to, rails);
      forall n | 0 <= n < |h.nodes|
        ensures Degree(h, n, Incoming) <= Limit(h.nodes[n]) && Degree(h, n, Outgoing) <= Limit(h.nodes[n])
      {
        UpdateEdgeDegrees(rr.road, from, to, rails, n);
      }
    }
  }

  /** `Builder::connect_bidirectional`: all four ends are checked before
      anything changes, then `one.0 -> other.0` and `other.1 -> one.1` are
      added. */
  function ConnectBidirectional(rr: Railroad, one: (nat, nat), other: (nat, nat), rails: seq<Rail>): (r: (Railroad, Option<(nat, nat)>))
    ensures r.1.Some? <==>
      CanAddNeighbour(rr.road, one.0, Outgoing) == Some(true) && CanAddNeighbour(rr.road, one.1, Incoming) == Some(true)
      && CanAddNeighbour(rr.road, other.1, Outgoing) == Some(true) && CanAddNeighbour(rr.road, other.0, Incoming) == Some(true)
    ensures r.1.None? ==> r.0 == rr
    ensures r.1.Some? ==> r.0 == rr.(road := r.0.road) && r.0.road.nodes == rr.road.nodes
    ensures r.1.Some? ==> r.1.value.1 < |r.0.road.edges| && r.0.road.edges[r.1.value.1] == Edge(other.1, one.1, rails)
    ensures r.1.Some? ==> r.1.value.0 < |r.0.road.edges| && r.0.road.edges[r.1.value.0] == Edge(one.0, other.0, rails)
    ensures r.1.Some? ==> EdgesKeptExcept(rr.road, r.0.road, r.1.value.0, r.1.value.1)
  {
    match CanAddNeighbour(rr.road, one.0, Outgoing)
    case None => (rr, None)
    case Some(a) =>
      if !a then (rr, None)
      else match CanAddNeighbour(rr.road, one.1, Incoming)
        case None => (rr, None)
        case Some(b) =>
          if !b then (rr, None)
          else match CanAddNeighbour(rr.road, other.1, Outgoing)
            case None => (rr, None)
            case Some(c) =>
              if !c then (rr, None)
              else match CanAddNeighbour(rr.road, other.0, Incoming)
                case None => (rr, None)
                case Some(d) =>
                  if !d then (rr, None)
                  else
                    var (g1, e1) := UpdateEdge(rr.road, one.0, other.0, rails);
                    var (g2, e2) := UpdateEdge(g1, other.1, one.1, rails);
                    UpdateTwiceKeepsFirst(rr.road, one.0, other.0, other.1, one.1, rails);
                    (rr.(road := g2), Some((e1, e2)))
  }

  /** `h` keeps every edge of `g` except those at the indices `a` and `b`,
      and removes none. */
  predicate EdgesKeptExcept(g: Graph, h: Graph, a: nat, b: nat)
  {
    |g.edges| <= |h.edges| && forall i :: 0 <= i < |g.edges| && i != a && i != b ==> h.edges[i] == g.edges[i]
  }

  /** Two `update_edge` calls in a row: the first edge survives the second
      (it is overwritten only by an edge with the same ends and rails), and
      every other edge is kept. */
  lemma UpdateTwiceKeepsFirst(g: Graph, from1: nat, to1: nat, from2: nat, to2: nat, rails: seq<Rail>)
    ensures
      var (g1, e1) := UpdateEdge(g, from1, to1, rails);
      var (g2, e2) := UpdateEdge(g1, from2, to2, rails);
      e1 < |g2.edges| && g2.edges[e1] == Edge(from1, to1, rails) && EdgesKeptExcept(g, g2, e1, e2)
  {
    var (g1, e1) := UpdateEdge(g, from1, to1, rails);
    var (g2, e2) := UpdateEdge(g1, from2, to2, rails);
    if e1 == e2 {
      assert g1.edges[e1].from == from2 && g1.edges[e1].to == to2;
    }
  }

  /** An accepted bidirectional connection is two `update_edge` calls, the
      forward edge first. */
  lemma ConnectBidirectionalIsUpdates(rr: Railroad, one: (nat, nat), other: (nat, nat), rails: seq<Rail>)
    ensures ConnectBidirectional(rr, one, other, rails).1.Some? ==>
      ConnectBidirectional(rr, one, other, rails).0.road == UpdateEdge(UpdateEdge(rr.road, one.0, other.0, rails).0, other.1, one.1, rails).0
  {
  }

  /** With distinct ends (two different nodes leave, two different nodes are
      entered) a bidirectional connection keeps the neighbour limits. */
  lemma ConnectBidirectionalKeepsRoadOk(rr: Railroad, one: (nat, nat), other: (nat, nat), rails: seq<Rail>)
    requires RoadOk(rr.road)
    requires one.0 != other.1 && one.1 != other.0
    ensures RoadOk(ConnectBidirectional(rr, one, other, rails).0.road)
  {
    var r := ConnectBidirectional(rr, one, other, rails);
    if r.1.Some? {
      var g1 := UpdateEdge(rr.road, one.0, other.0, rails).0;
      var h := UpdateEdge(g1, other.1, one.1, rails).0;
      assert r.0.road == h;
      UpdateEdgeInRange(rr.road, one.0, other.0, rails);
      UpdateEdgeInRange(g1, other.1, one.1, rails);
      forall n | 0 <= n < |h.nodes|
        ensures Degree(h, n, Incoming) <= Limit(h.nodes[n]) && Degree(h, n, Outgoing) <= Limit(h.nodes[n])
      {
        UpdateEdgeDegrees(rr.road, one.0, other.0, rails, n);
        UpdateEdgeDegrees(g1, other.1, one.1, rails, n);
      }
    }
  }

  /** Three plain sensors and no edges. */
  function ThreeSensors(): (rr: Railroad)
    ensures |rr.road.nodes| == 3 && rr.road.edges == []
    ensures forall n :: 0 <= n < 3 ==> rr.road.nodes[n].SensorNode?
  {
    var p := Position(Coord(0, 0, 0), North);
    Railroad(Graph([SensorNode(1, p), SensorNode(2, p), SensorNode(3, p)], []), map[], map[], map[], map[], map[])
  }

  /** Every end of `((0, 1), (2, 0))` has room on the edgeless three sensors. */
  lemma ThreeSensorsHaveRoom()
    ensures EndsHaveRoom(ThreeSensors().road, (0, 1), (2, 0))
  {
    var g := ThreeSensors().road;
    assert forall n, dir :: Degree(g, n, dir) == 0;
  }

  /** When the two pairs share a leaving node, the four checks all pass on
      the unchanged graph and the shared node ends with two outgoing edges:
      three plain sensors joined as `((0, 1), (2, 0))`. */
  lemma ConnectBidirectionalSharedEndWitness()
    ensures
      var r := ConnectBidirectional(ThreeSensors(), (0, 1), (2, 0), []);
      RoadOk(ThreeSensors().road) && r.1.Some? && Degree(r.0.road, 0, Outgoing) == 2 && !BoundedDegrees(r.0.road)
  {
    var rr := ThreeSensors();
    ThreeSensorsHaveRoom();
    var r := ConnectBidirectional(rr, (0, 1), (2, 0), []);
    ConnectBidirectionalIsUpdates(rr, (0, 1), (2, 0), []);
    var g1 := UpdateEdge(rr.road, 0, 2, []).0;
    assert g1.edges == [Edge(0, 2, [])];
    var g2 := UpdateEdge(g1, 0, 1, []).0;
    assert FindEdge(g1.edges, 0, 1).None?;
    assert g2.edges == [Edge(0, 2, []), Edge(0, 1, [])];
    assert g2.edges[..1] == [Edge(0, 2, [])];
    assert CountOutOf(g2.edges, 0) == 2;
    assert r.0.road == g2;
  }

  /** The four checks `connect_bidirectional` makes before it changes
      anything. */
  predicate EndsHaveRoom(g: Graph, one: (nat, nat), other: (nat, nat))
  {
    CanAddNeighbour(g, one.0, Outgoing) == Some(true) && CanAddNeighbour(g, one.1, Incoming) == Some(true)
    && CanAddNeighbour(g, other.1, Outgoing) == Some(true) && CanAddNeighbour(g, other.0, Incoming) == Some(true)
  }

  /** `connect_bidirectional` with the second edge's ends checked again
      after the first edge is in place, so that two pairs sharing an end
      cannot together exceed its limit; a refusal changes nothing. */
  function ConnectBidirectionalCorrected(rr: Railroad, one: (nat, nat), other: (nat, nat), rails: seq<Rail>): (r: (Railroad, Option<(nat, nat)>))
    ensures r.1.None? ==> r.0 == rr
    ensures r.1.Some? ==> ConnectBidirectional(rr, one, other, rails).1.Some?
    ensures r.1.Some? ==> r.0 == rr.(road := r.0.road) && r.0.road.nodes == rr.road.nodes
    ensures r.1.Some? ==> r.1.value.1 < |r.0.road.edges| && r.0.road.edges[r.1.value.1] == Edge(other.1, one.1, rails)
    ensures r.1.Some? ==> r.1.value.0 < |r.0.road.edges| && r.0.road.edges[r.1.value.0] == Edge(one.0, other.0, rails)
    ensures r.1.Some? ==> EdgesKeptExcept(rr.road, r.0.road, r.1.value.0, r.1.value.1)
  {
    if !EndsHaveRoom(rr.road, one, other) then (rr, None)
    else
      var (r1, e1) := Connect(rr, one.0, other.0, rails);
      var (r2, e2) := Connect(r1, other.1, one.1, rails);
      if e1.None? || e2.None? then (rr, None)
      else
        ConnectIsUpdate(rr, one.0, other.0, rails);
        ConnectIsUpdate(r1, other.1, one.1, rails);
        UpdateTwiceKeepsFirst(rr.road, one.0, other.0, other.1, one.1, rails);
        (r2, Some((e1.value, e2.value)))
  }

  /** An accepted corrected connection is the same two `update_edge` calls
      as the written one. */
  lemma ConnectBidirectionalCorrectedIsUpdates(rr: Railroad, one: (nat, nat), other: (nat, nat), rails: seq<Rail>)
    ensures ConnectBidirectionalCorrected(rr, one, other, rails).1.Some? ==>
      ConnectBidirectionalCorrected(rr, one, other, rails).0.road == UpdateEdge(UpdateEdge(rr.road, one.0, other.0, rails).0, other.1, one.1, rails).0
  {
    var r1 := Connect(rr, one.0, other.0, rails).0;
    ConnectIsUpdate(rr, one.0, other.0, rails);
    ConnectIsUpdate(r1, other.1, one.1, rails);
  }

  /** The corrected connection keeps the neighbour limits for every pair of
      ends, shared or not. */
  lemma ConnectBidirectionalCorrectedKeepsRoadOk(rr: Railroad, one: (nat, nat), other: (nat, nat), rails: seq<Rail>)
    requires RoadOk(rr.road)
    ensures RoadOk(ConnectBidirectionalCorrected(rr, one, other, rails).0.road)
  {
    var r1 := Connect(rr, one.0, other.0, rails).0;
    ConnectKeepsRoadOk(rr, one.0, other.0, rails);
    ConnectKeepsRoadOk(r1, other.1, one.1, rails);
  }

  /** With distinct ends the corrected connection accepts exactly when the
      written one does. */
  lemma ConnectBidirectionalCorrectedAgrees(rr: Railroad, one: (nat, nat), other: (nat, nat), rails: seq<Rail>)
    requires one.0 != other.1 && one.1 != other.0
    ensures ConnectBidirectionalCorrected(rr, one, other, rails).1.Some? <==> ConnectBidirectional(rr, one, other, rails).1.Some?
  {
    assert ConnectBidirectional(rr, one, other, rails).1.Some? <==> EndsHaveRoom(rr.road, one, other);
    if EndsHaveRoom(rr.road, one, other) {
      CorrectedAcceptsWithRoom(rr, one, other, rails);
    }
  }

  /** With room at all four distinct ends both corrected steps succeed. */
  lemma CorrectedAcceptsWithRoom(rr: Railroad, one: (nat, nat), other: (nat, nat), rails: seq<Rail>)
    requires one.0 != other.1 && one.1 != other.0
    requires EndsHaveRoom(rr.road, one, other)
    ensures ConnectBidirectionalCorrected(rr, one, other, rails).1.Some?
  {
    var c1 := Connect(rr, one.0, other.0, rails);
    ConnectIsUpdate(rr, one.0, other.0, rails);
    UpdateKeepsOtherRoom(rr.road, one.0, other.0, rails, other.1, Outgoing);
    UpdateKeepsOtherRoom(rr.road, one.0, other.0, rails, one.1, Incoming);
    assert c1.1.Some? && Connect(c1.0, other.1, one.1, rails).1.Some?;
  }

  /** An accepted `connect` is petgraph's `update_edge` on the graph. */
  lemma ConnectIsUpdate(rr: Railroad, from: nat, to: nat, rails: seq<Rail>)
    ensures Connect(rr, from, to, rails).1.Some? ==>
      Connect(rr, from, to, rails).0.road == UpdateEdge(rr.road, from, to, rails).0
  {
  }

  /** Adding or updating an edge leaves the room of a node on a side the
      edge does not touch. */
  lemma UpdateKeepsOtherRoom(g: Graph, from: nat, to: nat, rails: seq<Rail>, n: nat, dir: EdgeDir)
    requires dir == Outgoing ==> n != from
    requires dir == Incoming ==> n != to
    ensures CanAddNeighbour(UpdateEdge(g, from, to, rails).0, n, dir) == CanAddNeighbour(g, n, dir)
  {
    var h := UpdateEdge(g, from, to, rails).0;
    UpdateEdgeDegrees(g, from, to, rails, n);
    RoomByDegree(g, h, n, dir);
  }

  /** The room on a side depends only on the nodes and that side's degree. */
  lemma RoomByDegree(g: Graph, h: Graph, n: nat, dir: EdgeDir)
    requires g.nodes == h.nodes && Degree(h, n, dir) == Degree(g, n, dir)
    ensures CanAddNeighbour(h, n, dir) == CanAddNeighbour(g, n, dir)
  {
    if n < |g.nodes| {
      assert CanAddNeighbour(h, n, dir).value == CanAddNeighbour(g, n, dir).value;
    }
  }

  /** On the railroad of `ConnectBidirectionalSharedEndWitness` the
      corrected connection refuses. */
  lemma ConnectBidirectionalCorrectedRefusesSharedEnd()
    ensures ConnectBidirectionalCorrected(ThreeSensors(), (0, 1), (2, 0), []) == (ThreeSensors(), None)
  {
    FirstEdgeFills(ThreeSensors(), 0, 2, []);
    CorrectedRefusesFullSecondEnd(ThreeSensors(), (0, 1), (2, 0), []);
  }

  /** On a railroad without edges, connecting a node that is not a switch
      uses up its room for outgoing edges. */
  lemma FirstEdgeFills(rr: Railroad, from: nat, to: nat, rails: seq<Rail>)
    requires rr.road.edges == []
    requires from < |rr.road.nodes| && to < |rr.road.nodes|
    requires !rr.road.nodes[from].SwitchNode? && !rr.road.nodes[to].SwitchNode?
    ensures CanAddNeighbour(Connect(rr, from, to, rails).0.road, from, Outgoing) == Some(false)
  {
    assert Degree(rr.road, from, Outgoing) == 0 && Degree(rr.road, to, Incoming) == 0;
    assert Connect(rr, from, to, rails).1.Some?;
    ConnectIsUpdate(rr, from, to, rails);
    FirstEdgeFillsGraph(rr.road, from, to, rails);
  }

  /** The graph half of `FirstEdgeFills`: the single new edge is the only
      edge leaving `from`. */
  lemma FirstEdgeFillsGraph(g: Graph, from: nat, to: nat, rails: seq<Rail>)
    requires g.edges == [] && from < |g.nodes| && !g.nodes[from].SwitchNode?
    ensures CanAddNeighbour(UpdateEdge(g, from, to, rails).0, from, Outgoing) == Some(false)
  {
    assert FindEdge(g.edges, from, to).None?;
    var h := UpdateEdge(g, from, to, rails).0;
    assert h.edges == [Edge(from, to, rails)];
    CountOutOfSingle(Edge(from, to, rails), from);
    assert Degree(h, from, Outgoing) == 1 && h.nodes == g.nodes;
  }

  lemma CountOutOfSingle(e: Edge, n: nat)
    ensures CountOutOf([e], n) == if e.from == n then 1 else 0
  {
    assert [e][..0] == [];
  }

  /** The corrected connection refuses, unchanged, when the second edge no
      longer fits after the first. */
  lemma CorrectedRefusesFullSecondEnd(rr: Railroad, one: (nat, nat), other: (nat, nat), rails: seq<Rail>)
    requires CanAddNeighbour(Connect(rr, one.0, other.0, rails).0.road, other.1, Outgoing) == Some(false)
    ensures ConnectBidirectionalCorrected(rr, one, other, rails) == (rr, None)
  {
  }

  // ---------------------------------------------------------------------
  // Switch default connections
  // ---------------------------------------------------------------------

  predicate IsSwitchAt(nodes: seq<Node>, i: nat)
  {
    i < |nodes| && nodes[i].SwitchNode?
  }

  /** The railroad with node `sw` replaced by `n`. */
  function WithNode(rr: Railroad, sw: nat, n: Node): Railroad
    requires sw < |rr.road.nodes|
  {
    rr.(road := rr.road.(nodes := rr.road.nodes[sw := n]))
  }

  /** The side a switch's default connection lies on, as
      `set_switch_default_dir` decides it. */
  function DefaultSide(edges: seq<Edge>, sw: nat): (r: EdgeDir)
    ensures r == Incoming <==> CountInto(edges, sw) == 2
  {
    if |InNeighbours(edges, sw)| == 2 then Incoming else Outgoing
  }

  /** `Builder::set_switch_default_dir`: the default connection becomes
      `conn`, lying on the incoming side exactly when the switch has two
      incoming neighbours. Non-switch nodes are unchanged. */
  function SetSwitchDefaultDir(rr: Railroad, sw: nat, conn: nat): (r: Railroad)
    ensures |r.road.nodes| == |rr.road.nodes| && r.road.edges == rr.road.edges
    ensures r == rr.(road := r.road)
    ensures forall i :: 0 <= i < |rr.road.nodes| && i != sw ==> r.road.nodes[i] == rr.road.nodes[i]
    ensures !IsSwitchAt(rr.road.nodes, sw) ==> r == rr
    ensures IsSwitchAt(rr.road.nodes, sw) ==>
      var n := r.road.nodes[sw];
      && n.SwitchNode? && n.switch == rr.road.nodes[sw].switch && n.pos == rr.road.nodes[sw].pos
      && n.kind == rr.road.nodes[sw].kind && n.defaultConn == Some(conn)
      && (n.side == Incoming <==> Degree(rr.road, sw, Incoming) == 2)
  {
    if IsSwitchAt(rr.road.nodes, sw) then
      WithNode(rr, sw, rr.road.nodes[sw].(defaultConn := Some(conn), side := DefaultSide(rr.road.edges, sw)))
    else rr
  }

  /** `Builder::set_switch_default_dir_bidirectional`. */
  function SetSwitchDefaultDirBidirectional(rr: Railroad, sw: (nat, nat), conn: (nat, nat)): (r: Railroad)
    ensures r.road.edges == rr.road.edges && |r.road.nodes| == |rr.road.nodes|
    ensures IsSwitchAt(rr.road.nodes, sw.1) ==>
      r.road.nodes[sw.1].SwitchNode? && r.road.nodes[sw.1].defaultConn == Some(conn.1)
    ensures sw.0 != sw.1 && IsSwitchAt(rr.road.nodes, sw.0) ==>
      r.road.nodes[sw.0].SwitchNode? && r.road.nodes[sw.0].defaultConn == Some(conn.0)
    ensures forall i :: 0 <= i < |rr.road.nodes| && i != sw.0 && i != sw.1 ==> r.road.nodes[i] == rr.road.nodes[i]
  {
    SetSwitchDefaultDir(SetSwitchDefaultDir(rr, sw.0, conn.0), sw.1, conn.1)
  }

  /** The node `set_first_neighbour_for_switch` leaves at a switch position. */
  function ChooseFirstNeighbour(edges: seq<Edge>, sw: nat, n: Node): (r: Node)
    ensures !n.SwitchNode? || n.defaultConn.Some? ==> r == n
    ensures n.SwitchNode? ==> r.SwitchNode? && r.switch == n.switch && r.pos == n.pos && r.kind == n.kind
    ensures r != n ==> r.defaultConn.Some? && (r.side == Incoming <==> CountInto(edges, sw) == 2)
  {
    if !n.SwitchNode? || n.defaultConn.Some? then n
    else
      var ins := InNeighbours(edges, sw);
      var outs := OutNeighbours(edges, sw);
      if |ins| == 2 then n.(defaultConn := Some(ins[0]), side := Incoming)
      else if |outs| == 2 then n.(defaultConn := Some(outs[0]), side := Outgoing)
      else n
  }

  /** The chosen default connection of a switch without one: a
      predecessor when the switch has two of them, otherwise a successor
      when it has two of those, otherwise nothing changes. */
  lemma ChooseFirstNeighbourChoice(g: Graph, sw: nat, n: Node)
    requires n.SwitchNode? && n.defaultConn.None?
    ensures var c := ChooseFirstNeighbour(g.edges, sw, n);
      && c.SwitchNode? && c.switch == n.switch && c.pos == n.pos && c.kind == n.kind
      && (Degree(g, sw, Incoming) == 2 ==>
            && c.side == Incoming && c.defaultConn == Some(InNeighbours(g.edges, sw)[0])
            && c.defaultConn.value in Preds(g, sw))
      && (Degree(g, sw, Incoming) != 2 && Degree(g, sw, Outgoing) == 2 ==>
            && c.side == Outgoing && c.defaultConn == Some(OutNeighbours(g.edges, sw)[0])
            && exists i :: 0 <= i < |g.edges| && g.edges[i].from == sw && g.edges[i].to == c.defaultConn.value)
      && (Degree(g, sw, Incoming) != 2 && Degree(g, sw, Outgoing) != 2 ==> c == n)
  {
    var ins := InNeighbours(g.edges, sw);
    var outs := OutNeighbours(g.edges, sw);
    assert |ins| > 0 ==> ins[0] in ins;
    assert |outs| > 0 ==> outs[0] in outs;
  }

  /** `Builder::set_first_neighbour_for_switch`: a switch without a default
      connection takes its first incoming neighbour when it has two of them,
      otherwise its first outgoing neighbour when it has two of those. */
  function SetFirstNeighbourForSwitch(rr: Railroad, sw: nat): (r: Railroad)
    ensures |r.road.nodes| == |rr.road.nodes| && r.road.edges == rr.road.edges
    ensures r == rr.(road := r.road)
    ensures forall i :: 0 <= i < |rr.road.nodes| && i != sw ==> r.road.nodes[i] == rr.road.nodes[i]
    ensures !IsSwitchAt(rr.road.nodes, sw) ==> r == rr
    ensures IsSwitchAt(rr.road.nodes, sw) && rr.road.nodes[sw].defaultConn.Some? ==> r == rr
    ensures IsSwitchAt(rr.road.nodes, sw) && rr.road.nodes[sw].defaultConn.None? ==>
      var n := r.road.nodes[sw];
      && n.SwitchNode? && n.switch == rr.road.nodes[sw].switch && n.pos == rr.road.nodes[sw].pos && n.kind == rr.road.nodes[sw].kind
      && (Degree(rr.road, sw, Incoming) == 2 ==>
            && n.side == Incoming && n.defaultConn == Some(InNeighbours(rr.road.edges, sw)[0])
            && n.defaultConn.value in Preds(rr.road, sw))
      && (Degree(rr.road, sw, Incoming) != 2 && Degree(rr.road, sw, Outgoing) == 2 ==>
            && n.side == Outgoing && n.defaultConn == Some(OutNeighbours(rr.road.edges, sw)[0])
            && exists i :: 0 <= i < |rr.road.edges| && rr.road.edges[i].from == sw && rr.road.edges[i].to == n.defaultConn.value)
      && (Degree(rr.road, sw, Incoming) != 2 && Degree(rr.road, sw, Outgoing) != 2 ==> r == rr)
  {
    if sw < |rr.road.nodes| then
      var n := ChooseFirstNeighbour(rr.road.edges, sw, rr.road.nodes[sw]);
      if IsSwitchAt(rr.road.nodes, sw) && rr.road.nodes[sw].defaultConn.None? then
        ChooseFirstNeighbourChoice(rr.road, sw, rr.road.nodes[sw]);
        if n == rr.road.nodes[sw] then rr else WithNode(rr, sw, n)
      else rr
    else rr
  }

  /** Applying the neighbour choice twice is applying it once. */
  lemma SetFirstNeighbourIdempotent(rr: Railroad, sw: nat)
    ensures SetFirstNeighbourForSwitch(SetFirstNeighbourForSwitch(rr, sw), sw) == SetFirstNeighbourForSwitch(rr, sw)
  {
  }

  /** The choice at node `sw` depends only on that node and the edges. */
  lemma SetFirstNeighbourIsLocal(a: Railroad, b: Railroad, sw: nat)
    requires a.road.edges == b.road.edges && |a.road.nodes| == |b.road.nodes|
    requires sw < |a.road.nodes| ==> a.road.nodes[sw] == b.road.nodes[sw]
    ensures sw < |a.road.nodes| ==>
      SetFirstNeighbourForSwitch(a, sw).road.nodes[sw] == SetFirstNeighbourForSwitch(b, sw).road.nodes[sw]
  {
    if sw < |a.road.nodes| {
      SetFirstNeighbourAt(a, sw);
      SetFirstNeighbourAt(b, sw);
    }
  }

  /** At position `sw` the railroad holds the chosen node. */
  lemma SetFirstNeighbourAt(rr: Railroad, sw: nat)
    requires sw < |rr.road.nodes|
    ensures SetFirstNeighbourForSwitch(rr, sw).road.nodes[sw] == ChooseFirstNeighbour(rr.road.edges, sw, rr.road.nodes[sw])
  {
    if !(IsSwitchAt(rr.road.nodes, sw) && rr.road.nodes[sw].defaultConn.None?) {
      assert ChooseFirstNeighbour(rr.road.edges, sw, rr.road.nodes[sw]) == rr.road.nodes[sw];
    }
  }

  /** Replacing a node by one of the same kind and address keeps that
      kind's registry valid. */
  lemma ReplaceKeepsRegistry<T>(m: map<nat, Registered<T>>, nodes: seq<Node>, kind: Kind, sw: nat, n: Node)
    requires EntriesValid(m, nodes, kind) && NodesRegistered(m, nodes, kind)
    requires sw < |nodes| && OfKind(n, kind) == OfKind(nodes[sw], kind)
    requires OfKind(n, kind) ==> KindAddress(n, kind) == KindAddress(nodes[sw], kind)
    ensures EntriesValid(m, nodes[sw := n], kind) && NodesRegistered(m, nodes[sw := n], kind)
  {
  }

  /** Replacing a switch node by a switch with the same address keeps the
      railroad well formed. */
  lemma ReplaceSwitchKeepsWellFormed(rr: Railroad, sw: nat, n: Node)
    requires WellFormed(rr)
    requires IsSwitchAt(rr.road.nodes, sw) && n.SwitchNode? && n.switch == rr.road.nodes[sw].switch
    ensures WellFormed(WithNode(rr, sw, n))
  {
    var r := WithNode(rr, sw, n);
    ReplaceSwitchKeepsRoadOk(rr.road, sw, n);
    ReplaceKeepsRegistry(rr.sensors, rr.road.nodes, SensorKind, sw, n);
    ReplaceKeepsRegistry(rr.switches, rr.road.nodes, SwitchKind, sw, n);
    assert SensorsConsistent(r) && SwitchesConsistent(r);
    ReplaceSwitchKeepsSignalsAndCrossings(rr, sw, n);
  }

  /** A switch replaced by a switch keeps its neighbour limit. */
  lemma ReplaceSwitchKeepsRoadOk(g: Graph, sw: nat, n: Node)
    requires RoadOk(g) && sw < |g.nodes| && g.nodes[sw].SwitchNode? && n.SwitchNode?
    ensures RoadOk(g.(nodes := g.nodes[sw := n]))
  {
    var h := g.(nodes := g.nodes[sw := n]);
    assert forall i :: 0 <= i < |g.nodes| ==> Limit(h.nodes[i]) == Limit(g.nodes[i]);
    assert forall i, dir :: Degree(h, i, dir) == Degree(g, i, dir);
  }

  /** Signal and cross nodes are untouched by replacing a switch node by a
      switch node. */
  lemma ReplaceSwitchKeepsSignalsAndCrossings(rr: Railroad, sw: nat, n: Node)
    requires SignalsConsistent(rr) && CrossingsConsistent(rr)
    requires IsSwitchAt(rr.road.nodes, sw) && n.SwitchNode?
    ensures SignalsConsistent(WithNode(rr, sw, n)) && CrossingsConsistent(WithNode(rr, sw, n))
  {
    var r := WithNode(rr, sw, n);
    assert forall i :: 0 <= i < |rr.road.nodes| && i != sw ==> r.road.nodes[i] == rr.road.nodes[i];
  }

  /** Choosing a default connection leaves the node a switch with the same
      address, so the railroad stays well formed. */
  lemma SetFirstNeighbourKeepsWellFormed(rr: Railroad, sw: nat)
    requires WellFormed(rr)
    ensures WellFormed(SetFirstNeighbourForSwitch(rr, sw))
  {
    if IsSwitchAt(rr.road.nodes, sw) {
      var n := ChooseFirstNeighbour(rr.road.edges, sw, rr.road.nodes[sw]);
      if n != rr.road.nodes[sw] {
        ReplaceSwitchKeepsWellFormed(rr, sw, n);
      }
    }
  }

  /** Recording a default connection keeps the railroad well formed. */
  lemma SetSwitchDefaultDirKeepsWellFormed(rr: Railroad, sw: nat, conn: nat)
    requires WellFormed(rr)
    ensures WellFormed(SetSwitchDefaultDir(rr, sw, conn))
  {
    if IsSwitchAt(rr.road.nodes, sw) {
      ReplaceSwitchKeepsWellFormed(rr, sw, rr.road.nodes[sw].(defaultConn := Some(conn), side := DefaultSide(rr.road.edges, sw)));
    }
  }

  /** The switch pass of `Builder::build`: the neighbour choice applied to
      every registered switch node, in the registry's iteration order. */
  function SwitchPass(rr: Railroad, order: seq<nat>): (r: Railroad)
    ensures |r.road.nodes| == |rr.road.nodes| && r.road.edges == rr.road.edges
    ensures r == rr.(road := r.road)
    decreases |order|
  {
    if order == [] then rr else SwitchPass(SetFirstNeighbourForSwitch(rr, order[0]), order[1..])
  }

  /** The pass acts node by node: a listed node gets the neighbour choice
      made on the original graph, any other node is unchanged. The order of
      the registry does not matter. */
  lemma {:induction false} SwitchPassPointwise(rr: Railroad, order: seq<nat>)
    ensures forall i :: 0 <= i < |rr.road.nodes| ==>
      SwitchPass(rr, order).road.nodes[i] ==
        (if i in order then SetFirstNeighbourForSwitch(rr, i).road.nodes[i] else rr.road.nodes[i])
    decreases |order|
  {
    if order != [] {
      var rr1 := SetFirstNeighbourForSwitch(rr, order[0]);
      SwitchPassPointwise(rr1, order[1..]);
      forall i | 0 <= i < |rr.road.nodes|
        ensures SwitchPass(rr, order).road.nodes[i] ==
          (if i in order then SetFirstNeighbourForSwitch(rr, i).road.nodes[i] else rr.road.nodes[i])
      {
        if i == order[0] {
          SetFirstNeighbourIdempotent(rr, i);
        } else {
          SetFirstNeighbourIsLocal(rr1, rr, i);
          assert i in order <==> i in order[1..];
        }
      }
    }
  }

  /** The switch pass of `build` keeps the railroad well formed. */
  lemma {:induction false} SwitchPassKeepsWellFormed(rr: Railroad, order: seq<nat>)
    requires WellFormed(rr)
    ensures WellFormed(SwitchPass(rr, order))
    decreases |order|
  {
    if order != [] {
      SetFirstNeighbourKeepsWellFormed(rr, order[0]);
      SwitchPassKeepsWellFormed(SetFirstNeighbourForSwitch(rr, order[0]), order[1..]);
    }
  }

  /** Two iteration orders over the same switch nodes give the same
      railroad. */
  lemma SwitchPassOrderIrrelevant(rr: Railroad, o1: seq<nat>, o2: seq<nat>)
    requires forall i :: i in o1 <==> i in o2
    ensures SwitchPass(rr, o1) == SwitchPass(rr, o2)
  {
    SwitchPassPointwise(rr, o1);
    SwitchPassPointwise(rr, o2);
    assert SwitchPass(rr, o1).road.nodes == SwitchPass(rr, o2).road.nodes;
  }

  // ---------------------------------------------------------------------
  // Trains and path costs
  // ---------------------------------------------------------------------

  /** `Railroad::create_train`: a train can only be placed on a sensor or
      station node whose sensor it manages to block; it then replaces any
      train registered under its address. */
  function CreateTrain(rr: Railroad, address: nat, position: nat): (r: (Railroad, Option<Train>))
    ensures r.1.Some? <==>
      position < |rr.road.nodes| && IsDriveable(rr.road.nodes[position])
      && rr.road.nodes[position].sensor in rr.sensors
      && rr.sensors[rr.road.nodes[position].sensor].elem.train in {None, Some(address)}
    ensures r.1.None? ==> r.0 == rr
    ensures r.1.Some? ==>
      var adr := rr.road.nodes[position].sensor;
      r.1.value == NewTrain(address, position)
      && r.0.trains == rr.trains[address := NewTrain(address, position)]
      && adr in r.0.sensors && r.0.sensors[adr].elem.train == Some(address)
      && r.0.sensors[adr].nodes == rr.sensors[adr].nodes
      && r.0 == rr.(trains := r.0.trains, sensors := r.0.sensors)
      && forall k :: k != adr ==> (k in r.0.sensors <==> k in rr.sensors) && (k in rr.sensors ==> r.0.sensors[k] == rr.sensors[k])
  {
    var t := NewTrain(address, position);
    match NodeAt(rr.road.nodes, position)
    case None => (rr, None)
    case Some(node) =>
      if !IsDriveable(node) then (rr, None)
      else if node.sensor !in rr.sensors then (rr, None)
      else
        var entry := rr.sensors[node.sensor];
        var (s, ok) := Block(entry.elem, address);
        if !ok then (rr, None)
        else (rr.(sensors := rr.sensors[node.sensor := entry.(elem := s)], trains := rr.trains[address := t]), Some(t))
  }

  /** Two different trains cannot both be created on nodes of the same
      sensor. */
  lemma CreateTrainExclusive(rr: Railroad, a: nat, p: nat, b: nat, q: nat)
    requires a != b
    requires CreateTrain(rr, a, p).1.Some?
    requires q < |rr.road.nodes| && IsDriveable(rr.road.nodes[q])
    requires rr.road.nodes[q].sensor == rr.road.nodes[p].sensor
    ensures CreateTrain(CreateTrain(rr, a, p).0, b, q).1.None?
  {
  }

  /** The sensor of a node holds a train registered in the railroad. */
  predicate HeldBy(rr: Railroad, adr: nat, standing: bool)
  {
    adr in rr.sensors && rr.sensors[adr].elem.train.Some?
    && rr.sensors[adr].elem.train.value in rr.trains
    && Stands(rr.trains[rr.sensors[adr].elem.train.value]) == standing
  }

  /** The inner `train_cost` of `node_cost`. */
  function TrainCost(rr: Railroad, adr: nat): (r: Option<nat>)
    ensures r.Some? <==> HeldBy(rr, adr, true) || HeldBy(rr, adr, false)
    ensures r == Some(100) <==> HeldBy(rr, adr, true)
    ensures r == Some(27) <==> HeldBy(rr, adr, false)
  {
    var entry :- if adr in rr.sensors then Some(rr.sensors[adr]) else None;
    var t :- entry.elem.train;
    var train :- if t in rr.trains then Some(rr.trains[t]) else None;
    if Stands(train) then Some(100) else Some(27)
  }

  /** `node_cost`, the A* cost of entering a node: stations are expensive,
      sensors held by a standing train more so than by a moving one. */
  function NodeCost(rr: Railroad, n: nat): (r: nat)
    requires n < |rr.road.nodes|
    ensures r == 500 <==> rr.road.nodes[n].StationNode?
    ensures r == 100 <==> rr.road.nodes[n].SensorNode? && HeldBy(rr, rr.road.nodes[n].sensor, true)
    ensures r == 27 <==> rr.road.nodes[n].SensorNode? && HeldBy(rr, rr.road.nodes[n].sensor, false)
    ensures r == 2 <==>
      && !rr.road.nodes[n].StationNode?
      && !(rr.road.nodes[n].SensorNode? && (HeldBy(rr, rr.road.nodes[n].sensor, true) || HeldBy(rr, rr.road.nodes[n].sensor, false)))
  {
    match rr.road.nodes[n]
    case SensorNode(adr, _) =>
      (match TrainCost(rr, adr)
       case Some(c) => c
       case None => 2)
    case StationNode(_, _) => 500
    case _ => 2
  }

  /** `Node::position`: a cross node lies where its crossing does, or at the
      origin facing north if the crossing is unknown. */
  function NodePosition(rr: Railroad, n: Node): (r: Position)
    ensures !n.CrossNode? ==> r == n.pos
    ensures n.CrossNode? && n.cross in rr.crossings ==> r == rr.crossings[n.cross].pos
    ensures n.CrossNode? && n.cross !in rr.crossings ==> r == Position(Coord(0, 0, 0), North)
  {
    match n
    case CrossNode(adr) =>
      if adr in rr.crossings then rr.crossings[adr].pos else Position(Coord(0, 0, 0), North)
    case _ => n.pos
  }

  /** `estimate_costs`, the A* heuristic: the Manhattan distance between the
      node's and the destination's coordinates. */
  function EstimateCosts(rr: Railroad, n: nat, dest: nat): (r: nat)
    requires n < |rr.road.nodes| && dest < |rr.road.nodes|
    ensures r == 0 <==> NodePosition(rr, rr.road.nodes[n]).coord == NodePosition(rr, rr.road.nodes[dest]).coord
  {
    ManhattanDistance(NodePosition(rr, rr.road.nodes[n]).coord, NodePosition(rr, rr.road.nodes[dest]).coord)
  }

  /** The heuristic vanishes at the destination and is a metric over node
      positions. */
  lemma EstimateCostsIsMetric(rr: Railroad, a: nat, b: nat, c: nat)
    requires a < |rr.road.nodes| && b < |rr.road.nodes| && c < |rr.road.nodes|
    ensures EstimateCosts(rr, a, a) == 0
    ensures EstimateCosts(rr, a, b) == EstimateCosts(rr, b, a)
    ensures EstimateCosts(rr, a, c) <= EstimateCosts(rr, a, b) + EstimateCosts(rr, b, c)
  {
    ManhattanIsMetric(NodePosition(rr, rr.road.nodes[a]).coord, NodePosition(rr, rr.road.nodes[b]).coord, NodePosition(rr, rr.road.nodes[c]).coord);
  }

  /** Sum of the rails' Manhattan lengths. */
  function RailsCost(rails: seq<Rail>): (r: nat)
    ensures r == 0 <==> rails == []
    ensures forall i :: 0 <= i < |rails| ==> RailManhattan(rails[i]) <= r
    decreases |rails|
  {
    if rails == [] then 0 else RailManhattan(rails[0]) + RailsCost(rails[1..])
  }

  /** The A* edge cost of `shortest_path`: the rails' Manhattan lengths plus
      the cost of the node entered. */
  function EdgeCost(rr: Railroad, e: Edge): (r: nat)
    requires e.to < |rr.road.nodes|
    ensures r >= NodeCost(rr, e.to) + |e.rails|
  {
    RailsCostAtLeastCount(e.rails);
    RailsCost(e.rails) + NodeCost(rr, e.to)
  }

  /** Every rail is at least one unit long. */
  lemma {:induction false} RailsCostAtLeastCount(rails: seq<Rail>)
    ensures RailsCost(rails) >= |rails|
    decreases |rails|
  {
    if rails != [] {
      RailsCostAtLeastCount(rails[1..]);
    }
  }
}
