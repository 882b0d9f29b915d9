/** The elements placed on the track graph and their per-element state
    machines (src/control/rail_system/components/mod.rs): the status
    lattice, sensors with their holder ledger, switches, signals, crossings,
    the graph nodes, and the messages the elements emit. Every state
    machine is a pure function `(state, input) -> (state', messages)`. */
module Elements {
  import opened Primitives
  import opened Speeds
  import opened Geometry

  /** `Status`, declared in this order, so the derived `Ord` is
      `Free < Reserved < PathFree < Occupied`. */
  datatype Status = Free | Reserved | PathFree | Occupied

  /** Severity of a status: `Free < PathFree < Reserved < Occupied`. This is
      the order the join `|` follows. */
  function Severity(s: Status): nat
  {
    match s
    case Free => 0
    case PathFree => 1
    case Reserved => 2
    case Occupied => 3
  }

  /** Index of a status in the derived `Ord`. */
  function DerivedIndex(s: Status): nat
  {
    match s
    case Free => 0
    case Reserved => 1
    case PathFree => 2
    case Occupied => 3
  }

  function Max(a: nat, b: nat): nat
  {
    if a < b then b else a
  }

  /** `impl BitOr for Status`: the more severe of the two statuses. */
  function Join(a: Status, b: Status): (r: Status)
    ensures Severity(r) == Max(Severity(a), Severity(b))
    ensures r == a || r == b
  {
    match a
    case Free => b
    case Reserved => if b == Occupied then b else a
    case PathFree => if b == Free then a else b
    case Occupied => a
  }

  /** `|` is a semilattice join with `Free` as identity and `Occupied` as
      absorbing element. */
  lemma JoinLaws(a: Status, b: Status, c: Status)
    ensures Join(a, b) == Join(b, a)
    ensures Join(Join(a, b), c) == Join(a, Join(b, c))
    ensures Join(a, a) == a
    ensures Join(Free, a) == a && Join(a, Free) == a
    ensures Join(Occupied, a) == Occupied && Join(a, Occupied) == Occupied
  {
  }

  /** The join is not the maximum under the derived `Ord`: `Reserved` wins
      over `PathFree` although it is declared before it. */
  lemma JoinIsNotDerivedMax()
    ensures Join(Reserved, PathFree) == Reserved
    ensures DerivedIndex(Reserved) < DerivedIndex(PathFree)
  {
  }

  /** `SLevel`: the last level a sensor reported. */
  datatype SLevel = LevelOccupied | LevelFree

  /** `impl Not for SLevel`. */
  function NotLevel(l: SLevel): (r: SLevel)
    ensures r != l
  {
    match l
    case LevelOccupied => LevelFree
    case LevelFree => LevelOccupied
  }

  /** `SwDir`: the two positions of a switch. */
  datatype SwDir = Straight | Curved

  /** `impl Not for SwDir`. */
  function NotSwDir(d: SwDir): (r: SwDir)
    ensures r != d
  {
    match d
    case Straight => Curved
    case Curved => Straight
  }

  /** `impl From<bool> for SwDir`. */
  function SwDirFromBool(b: bool): (r: SwDir)
    ensures r == Straight <==> b
  {
    if b then Straight else Curved
  }

  /** The messages the elements build for the railroad's broadcast channel
      (src/control/messages.rs, plus `TrainOnSensor`, which
      components/mod.rs builds). `switch` and `handle_sensor_level` call the
      asynchronous `Railroad::send` without awaiting it, so the source never
      delivers their messages; the model emits them. */
  datatype Message =
    | RailOn
    | RailOff
    | TrainSpeed(train: nat, speed: Speed)
    | SwitchCmd(switch: nat, dir: SwDir)
    | SwitchAck(switch: nat, dir: SwDir)
    | UpdateSensor(sensor: nat, level: SLevel)
    | TrainOnSensor(sensor: nat, train: nat)

  // ---------------------------------------------------------------------
  // Sensors: the reservation ledger of one track section
  // ---------------------------------------------------------------------

  /** `Sensor`: the holder `train` is the reservation; `status` is what the
      signals see; `level` is the last level reported by the hardware. */
  datatype Sensor = Sensor(address: nat, status: Status, level: SLevel, train: Option<nat>, maxSpeed: Speed)

  /** `Sensor::new`. */
  function NewSensor(address: nat, maxSpeed: Speed): (s: Sensor)
    ensures s.address == address && s.maxSpeed == maxSpeed
    ensures s.status == Free && s.level == LevelFree && s.train.None?
  {
    Sensor(address, Free, LevelFree, None, maxSpeed)
  }

  /** Status of a sensor that has just lost its holder: the hardware level
      decides. */
  function StatusOfLevel(l: SLevel): Status
  {
    if l == LevelFree then Free else Occupied
  }

  /** `Sensor::block`: reserve the section for `t`. Granted when nobody
      holds it or `t` already does; only a first grant changes the state. */
  function Block(s: Sensor, t: nat): (r: (Sensor, bool))
    ensures r.1 <==> s.train.None? || s.train == Some(t)
    ensures r.1 ==> r.0.train == Some(t)
    ensures s.train.None? ==> r.0 == s.(train := Some(t), status := Join(Reserved, s.status))
    ensures s.train.Some? ==> r.0 == s
  {
    match s.train
    case Some(holder) => (s, holder == t)
    case None => (s.(train := Some(t), status := Join(Reserved, s.status)), true)
  }

  /** Mutual exclusion: once `t1` has been granted a section, no other train
      is granted it until it is freed. */
  lemma BlockExclusive(s: Sensor, t1: nat, t2: nat)
    requires Block(s, t1).1 && t1 != t2
    ensures !Block(Block(s, t1).0, t2).1
    ensures Block(Block(s, t1).0, t2).0 == Block(s, t1).0
  {
  }

  /** `Sensor::free`: release the section, but only for its holder. */
  function FreeHolder(s: Sensor, t: nat): (r: Sensor)
    ensures s.train != Some(t) ==> r == s
    ensures s.train == Some(t) ==> r == s.(train := None, status := StatusOfLevel(s.level))
  {
    match s.train
    case Some(holder) =>
      if holder == t then s.(train := None, status := if s.level == LevelFree then Free else Occupied)
      else s
    case None => s
  }

  /** Freeing twice is freeing once, and a freed section can be blocked by
      any train. */
  lemma FreeHolderIdempotent(s: Sensor, t: nat, t2: nat)
    ensures FreeHolder(FreeHolder(s, t), t) == FreeHolder(s, t)
    ensures s.train == Some(t) ==> Block(FreeHolder(s, t), t2).1
  {
  }

  /** Result of a level event: the new sensor, the emitted messages, and
      whether the delayed release (`free_sensor` after `free_time`) was
      armed. */
  datatype LevelOutcome = LevelOutcome(sensor: Sensor, messages: seq<Message>, timerArmed: bool)

  /** `Sensor::sensor_free` as written: with a holder the section stays
      reserved until the delayed release, otherwise it is free at once. The
      reported level is NOT recorded. */
  function SensorFreeEvent(s: Sensor): (r: LevelOutcome)
    ensures r.messages == [] && r.sensor.level == s.level && r.sensor.train == s.train
    ensures r.timerArmed <==> s.train.Some?
    ensures r.sensor.status == (if s.train.Some? then Reserved else Free)
  {
    if s.train.Some? then LevelOutcome(s.(status := Reserved), [], true)
    else LevelOutcome(s.(status := Free), [], false)
  }

  /** `Sensor::handle_sensor_level` as written. An occupied report announces
      the holder (`TrainOnSensor`) and records the level without touching
      the status; a free report is `sensor_free`. */
  function HandleSensorLevel(s: Sensor, level: SLevel): (r: LevelOutcome)
    ensures level == LevelOccupied ==> r.sensor == s.(level := LevelOccupied) && !r.timerArmed
    ensures level == LevelOccupied ==> r.messages == (if s.train.Some? then [TrainOnSensor(s.address, s.train.value)] else [])
    ensures level == LevelFree ==> r.sensor.level == s.level
    ensures r.sensor.train == s.train
  {
    match level
    case LevelOccupied =>
      var msgs := if s.train.Some? then [TrainOnSensor(s.address, s.train.value)] else [];
      LevelOutcome(s.(level := level), msgs, false)
    case LevelFree => SensorFreeEvent(s)
  }

  /** `Sensor::free_sensor`, the delayed release once `free_time` has passed
      without a new level event: unless the section is occupied it becomes
      free and its holder is released. */
  function FreeSensorTimer(s: Sensor): (r: Sensor)
    ensures s.status == Occupied ==> r == s
    ensures s.status != Occupied ==> r.train.None?
    ensures s.status != Occupied && s.train.Some? ==> r.status == StatusOfLevel(s.level)
    ensures s.status != Occupied && s.train.None? ==> r.status == Free
  {
    if s.status == Occupied then s
    else
      var cleared := s.(status := Free);
      match cleared.train
      case Some(t) => FreeHolder(cleared, t)
      case None => cleared
  }

  /** As written a sensor that ever reported `Occupied` keeps that level:
      after the train leaves (a `Free` report) the delayed release marks the
      section `Occupied`, until the next low report frees it. */
  lemma SensorLevelStuck(s: Sensor)
    requires s.level == LevelOccupied && s.train.Some? && s.status != Occupied
    ensures FreeSensorTimer(HandleSensorLevel(s, LevelFree).sensor).status == Occupied
  {
  }

  /** A concrete run: reserve, enter, leave, release. */
  lemma SensorLevelStuckWitness()
    ensures
      var s0 := NewSensor(1, Stop);
      var s1 := Block(s0, 7).0;
      var s2 := HandleSensorLevel(s1, LevelOccupied).sensor;
      var s3 := HandleSensorLevel(s2, LevelFree).sensor;
      FreeSensorTimer(s3).status == Occupied && FreeSensorTimer(s3).train.None?
  {
  }

  /** `sensor_free` with the reported level recorded. */
  function SensorFreeEventCorrected(s: Sensor): (r: LevelOutcome)
    ensures r.sensor.level == LevelFree && r.messages == [] && r.sensor.train == s.train
    ensures r.timerArmed <==> s.train.Some?
    ensures r.sensor.status == (if s.train.Some? then Reserved else Free)
  {
    var t := s.(level := LevelFree);
    if t.train.Some? then LevelOutcome(t.(status := Reserved), [], true)
    else LevelOutcome(t.(status := Free), [], false)
  }

  /** `handle_sensor_level` recording every reported level. */
  function HandleSensorLevelCorrected(s: Sensor, level: SLevel): (r: LevelOutcome)
    ensures r.sensor.level == level
    ensures r.sensor.train == s.train
    ensures level == LevelOccupied ==> r.sensor == s.(level := LevelOccupied) && !r.timerArmed
    ensures level == LevelOccupied ==> r.messages == (if s.train.Some? then [TrainOnSensor(s.address, s.train.value)] else [])
  {
    match level
    case LevelOccupied => HandleSensorLevel(s, level)
    case LevelFree => SensorFreeEventCorrected(s)
  }

  /** With the level recorded, a section whose train has left is released
      and free once the delayed release runs. */
  lemma ClearedSensorIsReleased(s: Sensor)
    ensures
      var r := FreeSensorTimer(HandleSensorLevelCorrected(s, LevelFree).sensor);
      r.status == Free && r.train.None?
  {
  }

  // ---------------------------------------------------------------------
  // Graph nodes
  // ---------------------------------------------------------------------

  /** `SwitchType`: the geometry of a switch. */
  datatype SwitchType =
    | StraightRight90 | StraightRight180 | StraightLeft90 | StraightLeft180
    | RightStraight90 | RightStraight180 | LeftStraight90 | LeftStraight180
    | LeftRight90 | LeftRight180 | RightLeft90 | RightLeft180

  /** `petgraph::Direction`. */
  datatype EdgeDir = Outgoing | Incoming

  /** `Node`: a vertex of the track graph. A switch node carries its default
      connection (the neighbour reached when `Straight`) and the side of the
      switch on which that neighbour lies. */
  datatype Node =
    | SignalNode(signal: nat, pos: Position)
    | SensorNode(sensor: nat, pos: Position)
    | SwitchNode(switch: nat, pos: Position, kind: SwitchType, defaultConn: Option<nat>, side: EdgeDir)
    | StationNode(sensor: nat, pos: Position)
    | CrossNode(cross: nat)
    | BufferNode(pos: Position)

  /** `Node::is_driveable`: a train may stop on sensors and stations only. */
  function IsDriveable(n: Node): (r: bool)
    ensures r <==> !(n.SignalNode? || n.SwitchNode? || n.CrossNode? || n.BufferNode?)
  {
    n.SensorNode? || n.StationNode?
  }

  /** `node_weight`: the node at an index, if there is one. */
  function NodeAt(nodes: seq<Node>, i: nat): (r: Option<Node>)
    ensures r.Some? <==> i < |nodes|
    ensures r.Some? ==> r.value == nodes[i]
  {
    if i < |nodes| then Some(nodes[i]) else None
  }

  predicate DriveableAt(nodes: seq<Node>, i: nat)
  {
    i < |nodes| && IsDriveable(nodes[i])
  }

  predicate SignalAt(nodes: seq<Node>, i: nat)
  {
    i < |nodes| && nodes[i].SignalNode?
  }

  // ---------------------------------------------------------------------
  // Switches
  // ---------------------------------------------------------------------

  /** `Switch`: the commanded direction and whether the hardware
      acknowledged it. */
  datatype Switch = Switch(address: nat, dir: SwDir, updated: bool)

  /** `Switch::new`. */
  function NewSwitch(address: nat): (sw: Switch)
    ensures sw.address == address && sw.dir == Straight && !sw.updated
  {
    Switch(address, Straight, false)
  }

  datatype SwitchOutcome = SwitchOutcome(sw: Switch, messages: seq<Message>)

  /** `Switch::switch` as written: unless already acknowledged in `d`, it
      clears `updated` and builds the command for `d` (emitted here, never
      delivered by the source), but never stores `d`. */
  function SwitchTo(sw: Switch, d: SwDir): (r: SwitchOutcome)
    ensures r.messages == [] <==> sw.dir == d && sw.updated
    ensures r.messages == [] ==> r.sw == sw
    ensures r.messages != [] ==> r.messages == [SwitchCmd(sw.address, d)] && r.sw == sw.(updated := false)
    ensures r.sw.dir == sw.dir
  {
    if sw.dir == d && sw.updated then SwitchOutcome(sw, [])
    else SwitchOutcome(sw.(updated := false), [SwitchCmd(sw.address, d)])
  }

  /** `Switch::ack_switch_state` as written: an acknowledgement of the stored
      direction marks it done; any other one re-commands the stored
      direction. */
  function AckSwitchState(sw: Switch, d: SwDir): (r: SwitchOutcome)
    ensures r.sw.dir == sw.dir && r.sw.address == sw.address
    ensures r.sw.updated <==> d == sw.dir
    ensures d == sw.dir ==> r.messages == []
    ensures d != sw.dir ==> r.messages == [SwitchCmd(sw.address, sw.dir)]
  {
    if d == sw.dir then SwitchOutcome(sw.(updated := true), [])
    else SwitchTo(sw.(updated := false), sw.dir)
  }

  /** The direction a switch must take for a train passing from `from` to
      `to`: `Straight` when either end is the switch's default connection,
      `Curved` otherwise or without a default; `None` if the node is not a
      switch. */
  function RequiredDir(nodes: seq<Node>, switchNode: nat, from: nat, to: nat): (r: Option<SwDir>)
    ensures r.Some? <==> switchNode < |nodes| && nodes[switchNode].SwitchNode?
    ensures r.Some? && nodes[switchNode].defaultConn.None? ==> r.value == Curved
    ensures r.Some? && nodes[switchNode].defaultConn.Some? ==>
      (r.value == Straight <==> nodes[switchNode].defaultConn.value in {from, to})
  {
    match NodeAt(nodes, switchNode)
    case Some(SwitchNode(_, _, _, defaultConn, _)) =>
      (match defaultConn
       case Some(n) => Some(SwDirFromBool(from == n || to == n))
       case None => Some(Curved))
    case _ => None
  }

  /** `Switch::request_path` as written. */
  function RequestPath(sw: Switch, nodes: seq<Node>, switchNode: nat, from: nat, to: nat): (r: SwitchOutcome)
    ensures RequiredDir(nodes, switchNode, from, to).None? ==> r == SwitchOutcome(sw, [])
    ensures r.sw.dir == sw.dir
  {
    match RequiredDir(nodes, switchNode, from, to)
    case Some(d) => SwitchTo(sw, d)
    case None => SwitchOutcome(sw, [])
  }

  /** `Switch::switch_in_correct_state`. */
  function SwitchInCorrectState(sw: Switch, nodes: seq<Node>, switchNode: nat, from: nat, to: nat): (r: bool)
    ensures r ==> switchNode < |nodes| && nodes[switchNode].SwitchNode?
    ensures r ==> sw.updated && RequiredDir(nodes, switchNode, from, to) == Some(sw.dir)
  {
    match RequiredDir(nodes, switchNode, from, to)
    case Some(d) => sw.dir == d && sw.updated
    case None => false
  }

  /** A path request on a switch node is silent exactly when the switch is
      already in the correct state, and otherwise commands the required
      direction once. */
  lemma RequestPathQuietIffInPosition(sw: Switch, nodes: seq<Node>, switchNode: nat, from: nat, to: nat)
    requires RequiredDir(nodes, switchNode, from, to).Some?
    ensures RequestPath(sw, nodes, switchNode, from, to).messages == [] <==> SwitchInCorrectState(sw, nodes, switchNode, from, to)
    ensures RequestPath(sw, nodes, switchNode, from, to).messages != [] ==>
      RequestPath(sw, nodes, switchNode, from, to).messages == [SwitchCmd(sw.address, RequiredDir(nodes, switchNode, from, to).value)]
  {
  }

  /** As written a switch never settles in a direction other than the one
      it was created with: after commanding `d` and the hardware
      acknowledging `d`, it is still not in direction `d` and it commands the
      old direction again. */
  lemma SwitchNeverSettles(sw: Switch, d: SwDir)
    requires d != sw.dir
    ensures
      var ack := AckSwitchState(SwitchTo(sw, d).sw, d);
      ack.sw.dir != d && !ack.sw.updated && ack.messages == [SwitchCmd(sw.address, sw.dir)]
  {
  }

  /** `Switch::switch` storing the commanded direction. */
  function SwitchToCorrected(sw: Switch, d: SwDir): (r: SwitchOutcome)
    ensures r.sw.dir == d && r.sw.address == sw.address
    ensures r.messages == [] <==> sw.dir == d && sw.updated
    ensures r.messages == [] ==> r.sw == sw
    ensures r.messages != [] ==> r.messages == [SwitchCmd(sw.address, d)] && !r.sw.updated
  {
    if sw.dir == d && sw.updated then SwitchOutcome(sw, [])
    else SwitchOutcome(sw.(dir := d, updated := false), [SwitchCmd(sw.address, d)])
  }

  /** `ack_switch_state` over the corrected `switch`. */
  function AckSwitchStateCorrected(sw: Switch, d: SwDir): (r: SwitchOutcome)
    ensures r.sw.dir == sw.dir && r.sw.address == sw.address
    ensures r.sw.updated <==> d == sw.dir
    ensures d != sw.dir ==> r.messages == [SwitchCmd(sw.address, sw.dir)]
    ensures d == sw.dir ==> r.messages == []
  {
    if d == sw.dir then SwitchOutcome(sw.(updated := true), [])
    else SwitchToCorrected(sw.(updated := false), sw.dir)
  }

  /** `request_path` over the corrected `switch`. */
  function RequestPathCorrected(sw: Switch, nodes: seq<Node>, switchNode: nat, from: nat, to: nat): (r: SwitchOutcome)
    ensures RequiredDir(nodes, switchNode, from, to).None? ==> r == SwitchOutcome(sw, [])
    ensures RequiredDir(nodes, switchNode, from, to).Some? ==> r.sw.dir == RequiredDir(nodes, switchNode, from, to).value
  {
    match RequiredDir(nodes, switchNode, from, to)
    case Some(d) => SwitchToCorrected(sw, d)
    case None => SwitchOutcome(sw, [])
  }

  /** With the direction stored, a path request followed by the hardware
      acknowledging the commanded direction leaves the switch in the
      correct state for that path, with nothing more to send. */
  lemma SwitchSettlesAfterAck(sw: Switch, nodes: seq<Node>, switchNode: nat, from: nat, to: nat)
    requires RequiredDir(nodes, switchNode, from, to).Some?
    ensures
      var d := RequiredDir(nodes, switchNode, from, to).value;
      var ack := AckSwitchStateCorrected(RequestPathCorrected(sw, nodes, switchNode, from, to).sw, d);
      SwitchInCorrectState(ack.sw, nodes, switchNode, from, to) && ack.messages == []
  {
  }

  // ---------------------------------------------------------------------
  // Signals and crossings
  // ---------------------------------------------------------------------

  /** `SignalType`. */
  datatype SignalType = BlockSignal | PathSignal | IntelligentPathSignal

  /** `Signal`, without its calculation-group mutex. */
  datatype Signal = Signal(
    address: nat,
    representingNode: nat,
    sigType: SignalType,
    status: Status,
    trains: seq<nat>,
    requesters: seq<nat>,
    otherInputSignals: seq<nat>,
    blockSensors: seq<nat>)

  /** `Signal::new`. */
  function NewSignal(address: nat, sigType: SignalType, node: nat): (s: Signal)
    ensures s.address == address && s.sigType == sigType && s.representingNode == node
    ensures s.status == Free && s.trains == [] && s.requesters == []
  {
    Signal(address, node, sigType, Free, [], [], [], [])
  }

  /** `Signal::trigger_update`: a `Reserved` or `Occupied` trigger is joined
      into the signal's status; other triggers leave the signal alone. */
  function TriggerUpdate(sig: Signal, trigger: Status): (r: Signal)
    ensures r == sig.(status := r.status)
    ensures trigger in {Reserved, Occupied} ==> r.status == Join(sig.status, trigger)
    ensures trigger in {Free, PathFree} ==> r == sig
    ensures sig.status == Occupied ==> r.status == Occupied
  {
    match trigger
    case Reserved => sig.(status := if sig.status == Occupied then Occupied else Reserved)
    case Occupied => sig.(status := Occupied)
    case _ => sig
  }

  /** Triggering twice with the same status is triggering once. */
  lemma TriggerUpdateIdempotent(sig: Signal, trigger: Status)
    ensures TriggerUpdate(TriggerUpdate(sig, trigger), trigger) == TriggerUpdate(sig, trigger)
  {
  }

  /** `Cross`: a level crossing represented by two nodes. */
  datatype Cross = Cross(address: nat, nodes: (nat, nat), pos: Position)
}
