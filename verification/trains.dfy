/** The bookkeeping of one train (src/control/train.rs): its route, a queue
    of `(node, granted)` hops, the decisions taken when the train enters a
    sensor or wants the next signal block, and the boolean evaluator of the
    timetable's waiting conditions. Graph lookups (`node_weight`) read the
    arena's node sequence. */
module Trains {
  import opened Primitives
  import opened Speeds
  import opened Elements

  /** One route entry: a node and whether its signal granted passage. */
  datatype Hop = Hop(node: nat, flag: bool)

  /** `Train`, without its speed-ramping task and timetable. */
  datatype Train = Train(address: nat, speed: Speed, position: nat, route: Option<seq<Hop>>)

  /** `Train::new`. */
  function NewTrain(address: nat, position: nat): (t: Train)
    ensures t.address == address && t.position == position
    ensures t.speed == Stop && t.route.None?
  {
    Train(address, Stop, position, None)
  }

  /** `Train::stands`. */
  function Stands(t: Train): (r: bool)
    ensures r <==> !t.speed.Drive?
  {
    t.speed == Stop || t.speed == EmergencyStop
  }

  /** A train stands exactly when its speed is not above `Stop` in the speed
      order; a new train stands. */
  lemma StandsIffNotAboveStop(t: Train, address: nat, position: nat)
    ensures Stands(t) <==> Le(t.speed, Stop)
    ensures Stands(t) <==> !t.speed.Drive?
    ensures Stands(NewTrain(address, position))
  {
  }

  function Nodes(route: seq<Hop>): (r: seq<nat>)
    ensures |r| == |route|
    ensures forall i :: 0 <= i < |route| ==> r[i] == route[i].node
  {
    seq(|route|, i requires 0 <= i < |route| => route[i].node)
  }

  // ---------------------------------------------------------------------
  // drive_ok
  // ---------------------------------------------------------------------

  /** Position of the first hop over node `n`. */
  function FirstHopAt(route: seq<Hop>, n: nat): (r: Option<nat>)
    ensures r.Some? ==> r.value < |route| && route[r.value].node == n
    ensures r.Some? ==> forall j :: 0 <= j < r.value ==> route[j].node != n
    ensures r.None? ==> forall j :: 0 <= j < |route| ==> route[j].node != n
    decreases |route|
  {
    if route == [] then None
    else if route[0].node == n then Some(0)
    else
      match FirstHopAt(route[1..], n)
      case Some(i) => Some(i + 1)
      case None => None
  }

  /** `Train::drive_ok`: grant the first hop over node `n`. */
  function DriveOk(t: Train, n: nat): (r: Train)
    ensures r == t.(route := r.route)
    ensures t.route.None? ==> r == t
    ensures t.route.Some? ==> r.route.Some? && |r.route.value| == |t.route.value|
    ensures t.route.Some? ==> Nodes(r.route.value) == Nodes(t.route.value)
    ensures t.route.Some? ==> forall j :: 0 <= j < |t.route.value| ==>
      r.route.value[j].flag == (t.route.value[j].flag || FirstHopAt(t.route.value, n) == Some(j))
  {
    match t.route
    case None => t
    case Some(route) =>
      match FirstHopAt(route, n)
      case None => t
      case Some(i) => t.(route := Some(route[i := Hop(n, true)]))
  }

  /** Granting the same node twice is granting it once. */
  lemma DriveOkIdempotent(t: Train, n: nat)
    ensures DriveOk(DriveOk(t, n), n) == DriveOk(t, n)
  {
    if t.route.Some? {
      var route := t.route.value;
      var once := DriveOk(t, n).route.value;
      assert Nodes(once) == Nodes(route);
      var k := FirstHopAt(route, n);
      if k.Some? {
        assert once[k.value].node == n;
        assert forall j :: 0 <= j < k.value ==> once[j].node == route[j].node;
        assert FirstHopAt(once, n) == k by { FirstHopAtDependsOnNodes(route, once, n); }
        assert once[k.value] == Hop(n, true);
        assert once[k.value := Hop(n, true)] == once;
      }
    }
  }

  lemma {:induction false} FirstHopAtDependsOnNodes(a: seq<Hop>, b: seq<Hop>, n: nat)
    requires Nodes(a) == Nodes(b)
    ensures FirstHopAt(a, n) == FirstHopAt(b, n)
    decreases |a|
  {
    assert |a| == |Nodes(a)| == |b|;
    if a != [] {
      assert a[0].node == Nodes(a)[0] == b[0].node;
      assert Nodes(a[1..]) == Nodes(b[1..]) by {
        forall i | 0 <= i < |a| - 1
          ensures Nodes(a[1..])[i] == Nodes(b[1..])[i]
        {
          assert Nodes(a)[i + 1] == Nodes(b)[i + 1];
        }
      }
      FirstHopAtDependsOnNodes(a[1..], b[1..], n);
    }
  }

  // ---------------------------------------------------------------------
  // request_next_block
  // ---------------------------------------------------------------------

  /** The node of a hop is a signal. */
  predicate SignalHop(nodes: seq<Node>, h: Hop)
  {
    SignalAt(nodes, h.node)
  }

  /** Result of the scan over the route's signal hops: whether a granted
      signal was passed, and the position of the first signal not yet
      granted. */
  datatype SignalScan = SignalScan(granted: nat, next: Option<nat>)

  /** The loop of `request_next_block`: count granted signals until the
      first ungranted one. */
  function ScanSignals(route: seq<Hop>, nodes: seq<Node>): (r: SignalScan)
    ensures r.next.Some? ==> r.next.value < |route|
    ensures r.next.Some? ==> SignalHop(nodes, route[r.next.value]) && !route[r.next.value].flag
    ensures r.next.Some? ==> forall j :: 0 <= j < r.next.value && SignalHop(nodes, route[j]) ==> route[j].flag
    ensures r.next.None? ==> forall j :: 0 <= j < |route| && SignalHop(nodes, route[j]) ==> route[j].flag
    ensures r.next.Some? ==> (0 < r.granted <==> exists j :: 0 <= j < r.next.value && SignalHop(nodes, route[j]))
    decreases |route|
  {
    if route == [] then SignalScan(0, None)
    else
      var rest := ScanSignals(route[1..], nodes);
      var shifted := match rest.next case Some(i) => Some(i + 1) case None => None;
      if SignalHop(nodes, route[0]) then
        if route[0].flag then SignalScan(rest.granted + 1, shifted)
        else SignalScan(0, Some(0))
      else
        assert rest.next.Some? ==> forall j :: 1 <= j < rest.next.value + 1 ==> route[j] == route[1..][j - 1];
        SignalScan(rest.granted, shifted)
  }

  /** The block request to send: the address of the signal at the first
      ungranted signal hop, when at least one granted signal precedes it. */
  predicate RequestsSignal(route: seq<Hop>, nodes: seq<Node>, adr: nat)
  {
    exists i :: 0 <= i < |route| && SignalHop(nodes, route[i]) && !route[i].flag
      && nodes[route[i].node].signal == adr
      && (forall j :: 0 <= j < i && SignalHop(nodes, route[j]) ==> route[j].flag)
      && (exists j :: 0 <= j < i && SignalHop(nodes, route[j]))
  }

  /** The decision part of `Train::request_next_block`: an exhausted route is
      dropped; otherwise the train asks for the next signal block when it
      already holds a granted one. The result is the train and the address
      of the signal to send `request_block` to. */
  function RequestNextBlock(t: Train, nodes: seq<Node>): (r: (Train, Option<nat>))
    ensures t.route.None? ==> r == (t, None)
    ensures t.route == Some([]) ==> r == (t.(route := None), None)
    ensures t.route.Some? && t.route.value != [] ==> r.0 == t
    ensures t.route.Some? ==> forall adr: nat :: r.1 == Some(adr) <==> RequestsSignal(t.route.value, nodes, adr)
  {
    match t.route
    case None => (t, None)
    case Some(route) =>
      if route == [] then (t.(route := None), None)
      else
        var scan := ScanSignals(route, nodes);
        if scan.granted < 1 then (t, None)
        else match scan.next
          case Some(i) => (t, Some(nodes[route[i].node].signal))
          case None => (t, None)
  }

  // ---------------------------------------------------------------------
  // sensor_entered
  // ---------------------------------------------------------------------

  /** The node of a hop is a sensor or a station. */
  predicate DriveableHop(nodes: seq<Node>, h: Hop)
  {
    DriveableAt(nodes, h.node)
  }

  /** Position of the first hop over a sensor or station. */
  function FirstDriveableHop(route: seq<Hop>, nodes: seq<Node>): (r: Option<nat>)
    ensures r.Some? ==> r.value < |route| && DriveableHop(nodes, route[r.value])
    ensures r.Some? ==> forall j :: 0 <= j < r.value ==> !DriveableHop(nodes, route[j])
    ensures r.None? ==> forall j :: 0 <= j < |route| ==> !DriveableHop(nodes, route[j])
    decreases |route|
  {
    if route == [] then None
    else if DriveableHop(nodes, route[0]) then Some(0)
    else
      match FirstDriveableHop(route[1..], nodes)
      case Some(i) => Some(i + 1)
      case None => None
  }

  /** The `pop_front` loop: drop hops up to and including the first one over
      `s`, or all of them if there is none. */
  function PopThrough(route: seq<Hop>, s: nat): (r: seq<Hop>)
    ensures FirstHopAt(route, s).Some? ==> r == route[FirstHopAt(route, s).value + 1..]
    ensures FirstHopAt(route, s).None? ==> r == []
    decreases |route|
  {
    if route == [] then []
    else if route[0].node == s then route[1..]
    else PopThrough(route[1..], s)
  }

  /** `Train::sensor_entered`: when `s` is the next sensor or station of the
      route, the hops up to and including it are consumed, the train stands
      at `s`, and the next block is requested. */
  function SensorEntered(t: Train, nodes: seq<Node>, s: nat): (r: (Train, Option<nat>))
    ensures r.0.address == t.address && r.0.speed == t.speed
    ensures t.route.None? ==> r == (t, None)
    ensures r.0 != t ==> t.route.Some? && r.0.position == s
    ensures r.1.Some? ==> r.0.route.Some? && r.0.position == s
  {
    match t.route
    case None => (t, None)
    case Some(route) =>
      match FirstDriveableHop(route, nodes)
      case Some(i) =>
        if route[i].node == s then
          RequestNextBlock(t.(route := Some(PopThrough(route, s)), position := s), nodes)
        else (t, None)
      case None => (t, None)
  }

  /** Entering the next sensor of the route consumes exactly the hops up to
      it and moves the train there; entering any other node changes
      nothing. */
  lemma SensorEnteredConsumesPrefix(t: Train, nodes: seq<Node>, s: nat)
    requires t.route.Some?
    ensures
      var route := t.route.value;
      var i := FirstDriveableHop(route, nodes);
      var r := SensorEntered(t, nodes, s);
      if i.Some? && route[i.value].node == s then
        r.0.position == s && r.0.address == t.address && r.0.speed == t.speed
        && (r.0.route.Some? ==> r.0.route.value == route[i.value + 1..])
        && (r.0.route.None? <==> i.value + 1 == |route|)
      else r == (t, None)
  {
    var route := t.route.value;
    var i := FirstDriveableHop(route, nodes);
    if i.Some? && route[i.value].node == s {
      var k := FirstHopAt(route, s);
      assert k.Some? && k.value <= i.value;
      if k.value < i.value {
        assert route[k.value].node == route[i.value].node;
        assert DriveableHop(nodes, route[k.value]);
        assert false;
      }
      assert PopThrough(route, s) == route[i.value + 1..];
    }
  }

  // ---------------------------------------------------------------------
  // request_route
  // ---------------------------------------------------------------------

  /** The hop is the signal with address `sig`. */
  predicate SignalHopWithAddress(nodes: seq<Node>, h: Hop, sig: nat)
  {
    SignalHop(nodes, h) && nodes[h.node].signal == sig
  }

  function FirstSignalWithAddress(route: seq<Hop>, nodes: seq<Node>, sig: nat): (r: Option<nat>)
    ensures r.Some? ==> r.value < |route| && SignalHopWithAddress(nodes, route[r.value], sig)
    ensures r.Some? ==> forall j :: 0 <= j < r.value ==> !SignalHopWithAddress(nodes, route[j], sig)
    ensures r.None? ==> forall j :: 0 <= j < |route| ==> !SignalHopWithAddress(nodes, route[j], sig)
    decreases |route|
  {
    if route == [] then None
    else if SignalHopWithAddress(nodes, route[0], sig) then Some(0)
    else
      match FirstSignalWithAddress(route[1..], nodes, sig)
      case Some(i) => Some(i + 1)
      case None => None
  }

  function FirstSignalHop(route: seq<Hop>, nodes: seq<Node>): (r: Option<nat>)
    ensures r.Some? ==> r.value < |route| && SignalHop(nodes, route[r.value])
    ensures r.Some? ==> forall j :: 0 <= j < r.value ==> !SignalHop(nodes, route[j])
    ensures r.None? ==> forall j :: 0 <= j < |route| ==> !SignalHop(nodes, route[j])
    decreases |route|
  {
    if route == [] then None
    else if SignalHop(nodes, route[0]) then Some(0)
    else
      match FirstSignalHop(route[1..], nodes)
      case Some(i) => Some(i + 1)
      case None => None
  }

  /** `Train::request_route(sig)`: the nodes of the route from the first hop
      over signal `sig` up to and including the next signal, or to the end
      of the route if no signal follows. */
  function RequestRoute(t: Train, nodes: seq<Node>, sig: nat): (r: Option<seq<nat>>)
    ensures r.Some? <==> t.route.Some? && exists j :: 0 <= j < |t.route.value| && SignalHopWithAddress(nodes, t.route.value[j], sig)
    ensures r.Some? ==> exists start, end ::
      0 <= start < end <= |t.route.value|
      && FirstSignalWithAddress(t.route.value, nodes, sig) == Some(start)
      && r.value == Nodes(t.route.value[start..end])
      && (forall j :: start < j < end - 1 ==> !SignalHop(nodes, t.route.value[j]))
      && ((start < end - 1 && SignalHop(nodes, t.route.value[end - 1]))
          || (end == |t.route.value| && forall j :: start < j < end ==> !SignalHop(nodes, t.route.value[j])))
  {
    var route :- t.route;
    var index :- FirstSignalWithAddress(route, nodes, sig);
    var end := match FirstSignalHop(route[index + 1..], nodes)
      case Some(i) => i + index + 2
      case None => |route|;
    assert forall j :: index < j < end - 1 ==> route[j] == route[index + 1..][j - index - 1];
    Some(Nodes(route[index..end]))
  }

  // ---------------------------------------------------------------------
  // trigger_drive_to
  // ---------------------------------------------------------------------

  /** `iter().rev().position(is_driveable)`: distance from the end of the
      path to its last sensor or station. */
  function RevPositionDriveable(path: seq<nat>, nodes: seq<Node>): (r: Option<nat>)
    ensures r.Some? ==> r.value < |path| && DriveableAt(nodes, path[|path| - 1 - r.value])
    ensures r.Some? ==> forall j :: |path| - 1 - r.value < j < |path| ==> !DriveableAt(nodes, path[j])
    ensures r.None? ==> forall j :: 0 <= j < |path| ==> !DriveableAt(nodes, path[j])
    decreases |path|
  {
    if path == [] then None
    else if DriveableAt(nodes, path[|path| - 1]) then Some(0)
    else
      match RevPositionDriveable(path[..|path| - 1], nodes)
      case Some(k) => Some(k + 1)
      case None => None
  }

  function Unflagged(path: seq<nat>): (r: seq<Hop>)
    ensures |r| == |path|
    ensures forall i :: 0 <= i < |path| ==> r[i] == Hop(path[i], false)
  {
    seq(|path|, i requires 0 <= i < |path| => Hop(path[i], false))
  }

  /** `Train::trigger_drive_to`, given the result of the path search: the
      route becomes the path cut after its last sensor or station (all of it
      if it has none), with no hop granted yet. Without a path the train is
      unchanged and the call reports failure. */
  function TriggerDriveTo(t: Train, nodes: seq<Node>, path: Option<seq<nat>>): (r: (Train, bool))
    ensures path.None? ==> r == (t, false)
    ensures path.Some? ==> r.1 && r.0 == t.(route := r.0.route) && r.0.route.Some?
    ensures path.Some? ==> exists n :: 0 <= n <= |path.value| && r.0.route.value == Unflagged(path.value[..n])
    ensures path.Some? && (exists j :: 0 <= j < |path.value| && DriveableAt(nodes, path.value[j])) ==>
      |r.0.route.value| > 0
      && DriveableAt(nodes, r.0.route.value[|r.0.route.value| - 1].node)
      && forall j :: |r.0.route.value| <= j < |path.value| ==> !DriveableAt(nodes, path.value[j])
    ensures path.Some? && (forall j :: 0 <= j < |path.value| ==> !DriveableAt(nodes, path.value[j])) ==>
      r.0.route.value == Unflagged(path.value)
  {
    match path
    case None => (t, false)
    case Some(p) =>
      var k := match RevPositionDriveable(p, nodes) case Some(k) => k case None => 0;
      var pos := |p| - k;
      assert p[..|p|] == p;
      (t.(route := Some(Unflagged(p[..pos]))), true)
  }

  // ---------------------------------------------------------------------
  // Waiting conditions of the timetable
  // ---------------------------------------------------------------------

  /** `WaitingReasonOperator`. */
  datatype Connector = And | Or | Xor | Xnor

  /** `WaitingReasons`; the other train is identified by its address. */
  datatype WaitingReason =
    | Time(nanos: nat)
    | TrainOnSensorReason(train: nat, sensor: nat)
    | TrainHoldInStation(train: nat, sensor: nat)

  /** `WaitingReasons::fulfills`. */
  function ReasonFulfills(w: WaitingReason): (r: bool)
    ensures w.Time? ==> (r <==> w.nanos == 0)
    ensures !w.Time? ==> r
  {
    match w
    case Time(d) => d == 0
    case TrainOnSensorReason(_, _) => true
    case TrainHoldInStation(_, _) => true
  }

  /** `WaitingNode`: a connector over reasons and sub-nodes. */
  datatype WaitingNode = WaitingNode(connector: Connector, waiters: seq<WaitingReason>, childs: seq<WaitingNode>)

  /** `Station` of a timetable. */
  datatype Station = Station(arrive: WaitingNode, depart: WaitingNode, destination: nat)

  function AllTrue(bs: seq<bool>): bool
    decreases |bs|
  {
    bs == [] || (bs[0] && AllTrue(bs[1..]))
  }

  function AnyTrue(bs: seq<bool>): bool
    decreases |bs|
  {
    bs != [] && (bs[0] || AnyTrue(bs[1..]))
  }

  /** `fold(acc, |res, next| res ^ next)`. */
  function FoldXor(acc: bool, bs: seq<bool>): bool
    decreases |bs|
  {
    if bs == [] then acc else FoldXor(acc != bs[0], bs[1..])
  }

  /** `fold(acc, |acc, item| acc == item)`. */
  function FoldEq(acc: bool, bs: seq<bool>): bool
    decreases |bs|
  {
    if bs == [] then acc else FoldEq(acc == bs[0], bs[1..])
  }

  /** `WaitingNode::check` over already evaluated conditions. */
  function Check(op: Connector, bs: seq<bool>): (r: bool)
    ensures bs == [] ==> (r <==> op == And || op == Xnor)
    ensures |bs| == 1 ==> (r <==> bs[0])
  {
    assert |bs| == 1 ==> bs[1..] == [] && AllTrue(bs[1..]) && !AnyTrue(bs[1..]) && FoldXor(bs[0], bs[1..]) == bs[0];
    match op
    case And => AllTrue(bs)
    case Or => AnyTrue(bs)
    case Xor => FoldXor(false, bs)
    case Xnor => if bs == [] then true else FoldEq(bs[0], bs[1..])
  }

  /** The connector applied to the two partial results in `fulfills`. */
  function Combine(op: Connector, a: bool, b: bool): bool
  {
    match op
    case And => a && b
    case Or => a || b
    case Xor => a != b
    case Xnor => a == b
  }

  /** `WaitingNode::fulfills`: the waiters' result combined with the
      children's result, both folded with the node's own connector. */
  function Fulfills(n: WaitingNode): (r: bool)
    ensures n.waiters == [] && n.childs == [] ==> (r <==> n.connector == And || n.connector == Xnor)
    decreases n
  {
    var waiters := seq(|n.waiters|, i requires 0 <= i < |n.waiters| => ReasonFulfills(n.waiters[i]));
    var childs := seq(|n.childs|, i requires 0 <= i < |n.childs| => Fulfills(n.childs[i]));
    Combine(n.connector, Check(n.connector, waiters), Check(n.connector, childs))
  }

  /** `Station::could_arrive`. */
  function CouldArrive(s: Station): (r: bool)
    ensures s.arrive.waiters == [] && s.arrive.childs == [] ==> (r <==> s.arrive.connector == And || s.arrive.connector == Xnor)
  {
    Fulfills(s.arrive)
  }

  /** `Station::could_depart`. */
  function CouldDepart(s: Station): (r: bool)
    ensures s.depart.waiters == [] && s.depart.childs == [] ==> (r <==> s.depart.connector == And || s.depart.connector == Xnor)
  {
    Fulfills(s.depart)
  }

  /** Number of true and false entries. */
  function CountTrue(bs: seq<bool>): nat
    decreases |bs|
  {
    if bs == [] then 0 else (if bs[0] then 1 else 0) + CountTrue(bs[1..])
  }

  function CountFalse(bs: seq<bool>): nat
    decreases |bs|
  {
    if bs == [] then 0 else (if bs[0] then 0 else 1) + CountFalse(bs[1..])
  }

  lemma {:induction false} AllTrueIsForall(bs: seq<bool>)
    ensures AllTrue(bs) <==> forall i :: 0 <= i < |bs| ==> bs[i]
    decreases |bs|
  {
    if bs != [] {
      AllTrueIsForall(bs[1..]);
      assert forall i :: 1 <= i < |bs| ==> bs[i] == bs[1..][i - 1];
    }
  }

  lemma {:induction false} AnyTrueIsExists(bs: seq<bool>)
    ensures AnyTrue(bs) <==> exists i :: 0 <= i < |bs| && bs[i]
    decreases |bs|
  {
    if bs != [] {
      AnyTrueIsExists(bs[1..]);
      assert forall i :: 1 <= i < |bs| ==> bs[i] == bs[1..][i - 1];
      if AnyTrue(bs[1..]) {
        var i :| 0 <= i < |bs[1..]| && bs[1..][i];
        assert bs[i + 1];
      }
    }
  }

  lemma {:induction false} FoldXorIsOddParity(acc: bool, bs: seq<bool>)
    ensures FoldXor(acc, bs) == (acc != (CountTrue(bs) % 2 == 1))
    decreases |bs|
  {
    if bs != [] {
      FoldXorIsOddParity(acc != bs[0], bs[1..]);
    }
  }

  lemma {:induction false} FoldEqIsEvenFalses(acc: bool, bs: seq<bool>)
    ensures FoldEq(acc, bs) == (acc == (CountFalse(bs) % 2 == 0))
    decreases |bs|
  {
    if bs != [] {
      FoldEqIsEvenFalses(acc == bs[0], bs[1..]);
    }
  }

  /** `check` is: all hold (AND), one holds (OR), an odd number holds (XOR),
      an even number fails (XNOR, whose reduce of `==` is true on the empty
      list). */
  lemma CheckSemantics(op: Connector, bs: seq<bool>)
    ensures op == And ==> (Check(op, bs) <==> forall i :: 0 <= i < |bs| ==> bs[i])
    ensures op == Or ==> (Check(op, bs) <==> exists i :: 0 <= i < |bs| && bs[i])
    ensures op == Xor ==> (Check(op, bs) <==> CountTrue(bs) % 2 == 1)
    ensures op == Xnor ==> (Check(op, bs) <==> CountFalse(bs) % 2 == 0)
  {
    match op
    case And => AllTrueIsForall(bs);
    case Or => AnyTrueIsExists(bs);
    case Xor => FoldXorIsOddParity(false, bs);
    case Xnor => XnorIsEvenFalses(bs);
  }

  lemma XnorIsEvenFalses(bs: seq<bool>)
    ensures Check(Xnor, bs) <==> CountFalse(bs) % 2 == 0
  {
    if bs != [] {
      FoldEqIsEvenFalses(bs[0], bs[1..]);
      ParityStep(CountFalse(bs[1..]));
    }
  }

  lemma ParityStep(c: nat)
    ensures ((c + 1) % 2 == 0) == (c % 2 == 1)
  {
  }

  /** A node without children is decided by its waiters alone, whatever its
      connector: the empty children fold to each connector's neutral value. */
  lemma LeafFulfillsByWaiters(n: WaitingNode)
    requires n.childs == []
    ensures Fulfills(n) <==> Check(n.connector, seq(|n.waiters|, i requires 0 <= i < |n.waiters| => ReasonFulfills(n.waiters[i])))
  {
    var childs := seq(|n.childs|, i requires 0 <= i < |n.childs| => Fulfills(n.childs[i]));
    assert childs == [];
  }

  /** The `all` and `any` folds and the counts of true and false entries
      split over a concatenation. */
  lemma {:induction false} FoldsAppend(a: seq<bool>, b: seq<bool>)
    ensures AllTrue(a + b) == (AllTrue(a) && AllTrue(b))
    ensures AnyTrue(a + b) == (AnyTrue(a) || AnyTrue(b))
    ensures CountTrue(a + b) == CountTrue(a) + CountTrue(b)
    ensures CountFalse(a + b) == CountFalse(a) + CountFalse(b)
    decreases |a|
  {
    if a == [] {
      assert a + b == b;
    } else {
      assert (a + b)[0] == a[0];
      assert (a + b)[1..] == a[1..] + b;
      FoldsAppend(a[1..], b);
    }
  }

  /** Joining two checks with their own connector is one check over both
      lists. */
  lemma CombineChecks(op: Connector, ws: seq<bool>, cs: seq<bool>)
    ensures Combine(op, Check(op, ws), Check(op, cs)) == Check(op, ws + cs)
  {
    FoldsAppend(ws, cs);
    match op
    case And =>
    case Or =>
    case Xor =>
      CheckSemantics(op, ws);
      CheckSemantics(op, cs);
      CheckSemantics(op, ws + cs);
    case Xnor =>
      CheckSemantics(op, ws);
      CheckSemantics(op, cs);
      CheckSemantics(op, ws + cs);
  }

  /** A node's value is one `check` of its connector over the waiters'
      results followed by the children's: with `CheckSemantics`, AND needs
      all of them, OR one, XOR an odd number true and XNOR an even number
      false, across both lists. */
  lemma FulfillsIsCheckOverAll(n: WaitingNode)
    ensures
      var ws := seq(|n.waiters|, i requires 0 <= i < |n.waiters| => ReasonFulfills(n.waiters[i]));
      var cs := seq(|n.childs|, i requires 0 <= i < |n.childs| => Fulfills(n.childs[i]));
      Fulfills(n) == Check(n.connector, ws + cs)
  {
    var ws := seq(|n.waiters|, i requires 0 <= i < |n.waiters| => ReasonFulfills(n.waiters[i]));
    var cs := seq(|n.childs|, i requires 0 <= i < |n.childs| => Fulfills(n.childs[i]));
    assert Fulfills(n) == Combine(n.connector, Check(n.connector, ws), Check(n.connector, cs));
    CombineChecks(n.connector, ws, cs);
  }

  /** A leaf waiting only on elapsed timers is fulfilled under AND exactly
      when every timer has run out. */
  lemma AndLeafWaitsForAllTimers(n: WaitingNode)
    requires n.childs == [] && n.connector == And
    requires forall i :: 0 <= i < |n.waiters| ==> n.waiters[i].Time?
    ensures Fulfills(n) <==> forall i :: 0 <= i < |n.waiters| ==> n.waiters[i].nanos == 0
  {
    var waiters := seq(|n.waiters|, i requires 0 <= i < |n.waiters| => ReasonFulfills(n.waiters[i]));
    LeafFulfillsByWaiters(n);
    CheckSemantics(And, waiters);
    assert forall i :: 0 <= i < |n.waiters| ==> (waiters[i] <==> n.waiters[i].nanos == 0);
  }
}
