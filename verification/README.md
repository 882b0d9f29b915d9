# locologic — a Dafny model of the railroad control core

locologic is a Rust library that controls a model railroad over LocoNet.
The track is a directed graph (a petgraph `Graph`). Its nodes are:

- sensors and stations (occupancy detectors);
- switches;
- signals;
- the two halves of a crossing.

Each edge carries the rails laid between two nodes. The `Builder`
assembles the graph and the element registries. The `Railroad` answers
graph queries: the signal in front of a block, node and estimate costs
for path search, and train creation. Trains follow routes of node
indices. At each signal they request the next block. Signals grant a
block or a path when the sensors behind them are free.

This project models that core as pure Dafny functions and proves
properties about it. The modules are:

- `Primitives`: `Option`, `u8`/`usize` bounds, and checked `usize` arithmetic.
- `Speeds`: `Speed<u8>`: `Add`, `Sub`, the total order, and `sub_to_speed`.
- `Geometry`: `Direction`, `Coord`, `Position` and `Rail`. Covers rotation,
  lines, distances, steps and rail construction.
- `Elements`: `Status`, `Sensor`, `Switch`, `Signal`, `Cross` and graph `Node`.
- `Locodrive`: conversions to and from the LocoNet driver's argument types.
- `Trains`: a train's route and its bookkeeping. Also the timetable waiting
  conditions (`WaitingNode`, `WaitingReasons`).
- `TrackGraph`: the arena graph, `update_edge`, degrees, neighbours, and the
  reverse breadth-first search behind `get_signal_of_block`.
- `Railroads`: the builder (`add_*`, `connect*`, switch defaults), the
  well-formedness invariant it keeps, `create_train`, and the path-search
  costs.
- `SignalChecks`: `drive`, `block_behaviour`, `path_behaviour`, `path_free`
  and crossing handling.

Messages the source builds for its broadcast channel become returned
lists, including two that it never delivers (see "## Left out"). Timers become explicit steps: `FreeSensorTimer` is the delayed
release. Mutexes and `await` disappear, because every operation is a
pure state transition.

## Model

| member | source | states |
|---|---|---|
| Speeds.DefaultAcceleration | src/general/mod.rs:21-25 | the default acceleration of a `u8` speed type is 5 |
| Speeds.DefaultAccelerationSpeed | src/control/rail_system/components/mod.rs:50-54 | the default acceleration speed is `Drive(5)` |
| Speeds.SubToSpeed | src/general/mod.rs:11-15 | a checked subtraction `a - b`: `Drive(d)` with `d + b == a` exactly when `b <= a`, and `Stop` on underflow; never an emergency stop |
| Speeds.Add | src/control/rail_system/components/mod.rs:56-72 | adding a stop keeps the left speed; adding a drive speed to a stopped one gives that drive speed; two drive speeds add their payloads; the result is never slower than the left operand; a `u8` overflow (a panic in the source) is excluded |
| Speeds.Sub | src/control/rail_system/components/mod.rs:74-87 | as written: subtracting a stop keeps the left speed; a stopped left side stays stopped; for two drive speeds the result drives exactly when the LEFT payload is at most the right one, and then equals right minus left |
| Speeds.SubCorrected | src/control/rail_system/components/mod.rs:74-87 | with the operands in the intended order, the result is never faster than the left operand; `x - y + y == x` when `y <= x`; `Stop` when `y > x` |
| Speeds.SubReversedWitness | src/control/rail_system/components/mod.rs:83 | `Drive(3) - Drive(10)` gives `Drive(7)`, which is faster than `Drive(3)`; `Drive(10) - Drive(3)` gives `Stop`, where the corrected version gives `Drive(7)` |
| Speeds.SubAgreesOnlyOnEqualPayloads | src/control/rail_system/components/mod.rs:74-87 | on two drive speeds, the as-written and corrected subtractions agree exactly when the payloads are equal |
| Speeds.Cmp | src/control/rail_system/components/mod.rs:98-120 | `EmergencyStop < Stop < Drive(_)`, and drive speeds are ordered by payload |
| Speeds.CmpTotalOrder | src/control/rail_system/components/mod.rs:89-120 | `cmp` is a total order: `Equal` iff the speeds are equal, antisymmetric, total, and transitive |
| Geometry.ToU8 | src/control/rail_system/components/mod.rs:179-190 | every direction has a discriminant below 10 |
| Geometry.FromU8 | src/control/rail_system/components/mod.rs:211-227 | `From<u8>` reads its argument modulo 10 and is the inverse of the discriminant |
| Geometry.Not | src/control/rail_system/components/mod.rs:192-209 | negation changes every direction and keeps it horizontal or vertical |
| Geometry.RotateBy | src/control/rail_system/components/mod.rs:239-257 | rotation always gives a horizontal direction, the one at `(d + rotation) mod 8`; an addition that would overflow `u8` is excluded |
| Geometry.RotateRight | src/control/rail_system/components/mod.rs:230-232 | rotating right turns the direction 45 degrees to the right: its index goes up by one modulo 8 |
| Geometry.RotateLeft | src/control/rail_system/components/mod.rs:234-237 | rotating left turns the direction 45 degrees to the left: its index goes up by seven modulo 8 |
| Geometry.DirectionRoundTrips | src/control/rail_system/components/mod.rs:192-227 | `!!d == d`, and `Direction::from(d as u8) == d` |
| Geometry.RotateLeftUndoesRight | src/control/rail_system/components/mod.rs:229-257 | on the compass directions, rotating left undoes rotating right |
| Geometry.NotIsHalfTurn | src/control/rail_system/components/mod.rs:192-257 | on the compass directions, negation is a rotation by four |
| Geometry.RotateDropsVertical | src/control/rail_system/components/mod.rs:239-257 | rotating `Up` or `Down`, even by zero, leaves the vertical axis |
| Geometry.StepAndLineDisagreeOnX | src/control/rail_system/components/mod.rs:290-386 | `step` moves along the x axis opposite to the line that `is_on_line` and `distance` measure, and agrees with it on y and z |
| Geometry.DistanceAsWritten | src/control/rail_system/components/mod.rs:336-355 | as written: `None` exactly when the two coordinates are not on one line in that direction |
| Geometry.Distance | src/control/rail_system/components/mod.rs:336-355 | the distance is `None` exactly off the line; otherwise `b` is `a` moved that many units along the direction |
| Geometry.DistanceComplete | src/control/rail_system/components/mod.rs:336-355 | every `n` that moves `a` to `b` along the direction is the distance that is returned |
| Geometry.DistanceNorthwestUnderflows | src/control/rail_system/components/mod.rs:349 | as written, for two distinct coordinates on a northwest line the `usize` subtraction underflows |
| Geometry.DistanceNorthwestWitness | src/control/rail_system/components/mod.rs:349 | from (0,1,0) to (1,0,0) northwest the as-written distance is -1; the corrected one is 1 |
| Geometry.DistanceAsWrittenElsewhere | src/control/rail_system/components/mod.rs:336-355 | in every other direction the as-written distance equals the corrected one |
| Geometry.Step | src/control/rail_system/components/mod.rs:357-386 | a step of zero is the identity, and a horizontal step keeps the height |
| Geometry.StepMovesAlong | src/control/rail_system/components/mod.rs:357-386 | a step succeeds exactly when the target stays in `usize` range, and then it lands at `amount` units along the direction |
| Geometry.StepDistanceRoundTrip | src/control/rail_system/components/mod.rs:336-386 | along the y and z axes, the distance back to the point a step reached is the step length |
| Geometry.StepLeavesLineOnXAxis | src/control/rail_system/components/mod.rs:290-386 | on a direction with an x component, a nonzero step leaves the line that `is_on_line` checks |
| Geometry.IsOnLine | src/control/rail_system/components/mod.rs:290-334 | a point is on the line exactly when it lies a non-negative number of unit steps along the direction |
| Geometry.ManhattanIsMetric | src/control/rail_system/components/mod.rs:396-398 | the Manhattan distance is symmetric, is zero only on equal coordinates, and satisfies the triangle inequality |
| Geometry.ManhattanDistance | src/control/rail_system/components/mod.rs:396-398 | the distance is zero exactly on equal coordinates and bounds the difference on each axis |
| Geometry.PositionStep | src/control/rail_system/components/mod.rs:437-444 | a position step moves the coordinate exactly as `Coord::step` does, keeps the direction, and fails when that step fails |
| Geometry.PositionRotateBy | src/control/rail_system/components/mod.rs:425-427 | rotating a position keeps its coordinate and turns its direction by `rotation` steps of 45 degrees to the right, modulo a full turn |
| Geometry.PositionRotateByUndone | src/control/rail_system/components/mod.rs:422-427 | a position facing a compass direction is restored by turning it by `rotation` and then by the rest of a full turn |
| Geometry.PerformStep | src/control/rail_system/components/mod.rs:479-512 | with the corrected northwest distance, a rail is built exactly when the end lies on the start's line; it starts at the start position, and `length + 1` units along reach the end |
| Geometry.NewConnectionVec | src/control/rail_system/components/mod.rs:514-547 | with the corrected northwest distance, the connection fails exactly when there are no waypoints or some consecutive pair cannot be joined; otherwise there is one rail per gap, each from one waypoint to the next, entering in the previous waypoint's direction |
| Geometry.PerformStepLengthAsWritten | src/control/rail_system/components/mod.rs:479-488 | as written, a rail length exists exactly when the end is a different point on the start's line |
| Geometry.PerformStepAsWrittenElsewhere | src/control/rail_system/components/mod.rs:479-488 | in every direction but northwest, the as-written rail is the one `PerformStep` builds |
| Geometry.PerformStepNorthwestUnderflows | src/control/rail_system/components/mod.rs:479-488 | as written, every northwest rail gets a negative distance and a length below -1, where the corrected step builds a rail |
| Geometry.PerformStepNorthwestWitness | src/control/rail_system/components/mod.rs:479-488 | from (0,1,0) northwest to (1,0,0) the as-written length is -2; the corrected rail has length 0 |
| Geometry.ConnectionByLength | src/control/rail_system/components/mod.rs:549-567 | the chain succeeds exactly when every step stays in range; there is one rail per instruction, with the given length and direction; the first rail starts at the start, and each rail ends where the next begins |
| Geometry.RailManhattanMatchesEndpoints | src/control/rail_system/components/mod.rs:596-609 | a rail's Manhattan length is the Manhattan distance between its start and its end |
| Geometry.RailManhattan | src/control/rail_system/components/mod.rs:596-609 | a rail of length `l` covers between `l + 1` and `2(l + 1)` units, the upper bound exactly for diagonal rails |
| Elements.Join | src/control/rail_system/components/mod.rs:818-836 | `a \| b` is one of its operands, and its severity is the larger one (`Occupied > Reserved > PathFree > Free`) |
| Elements.JoinLaws | src/control/rail_system/components/mod.rs:818-836 | `\|` is commutative, associative and idempotent, with `Free` as unit and `Occupied` as absorbing element |
| Elements.JoinIsNotDerivedMax | src/control/rail_system/components/mod.rs:811-836 | the join does not follow the declaration order: `Reserved \| PathFree == Reserved`, though `PathFree` is declared later |
| Elements.NotLevel | src/control/rail_system/components/mod.rs:843-852 | negating a sensor level always changes it |
| Elements.NotSwDir | src/control/rail_system/components/mod.rs:643-652 | negating a switch direction always changes it |
| Elements.SwDirFromBool | src/control/rail_system/components/mod.rs:654-662 | `true` maps to `Straight` and `false` to `Curved` |
| Elements.NewSensor | src/control/rail_system/components/mod.rs:868-881 | a new sensor is free, reads low, and is held by no train |
| Elements.Block | src/control/rail_system/components/mod.rs:895-903 | blocking succeeds exactly when the sensor is unheld or already held by that train; a success records the train as holder and joins `Reserved` into the status; a sensor held by another train is unchanged |
| Elements.BlockExclusive | src/control/rail_system/components/mod.rs:895-903 | once one train has blocked a sensor, another train's block fails and changes nothing |
| Elements.FreeHolder | src/control/rail_system/components/mod.rs:972-987 | only the holding train frees a sensor; freeing clears the holder and resets the status to what the level says |
| Elements.FreeHolderIdempotent | src/control/rail_system/components/mod.rs:895-987 | freeing twice is freeing once, and a freed sensor can be blocked again |
| Elements.SensorFreeEvent | src/control/rail_system/components/mod.rs:927-948 | as written: a low report leaves the stored level unchanged; a held sensor goes to `Reserved` and arms the release timer; an unheld one goes to `Free` |
| Elements.HandleSensorLevel | src/control/rail_system/components/mod.rs:905-925 | a high report stores the level, and the model emits the `TrainOnSensor` announcement of the holding train that the source builds; a low report keeps the stored level; the holder is unchanged |
| Elements.FreeSensorTimer | src/control/rail_system/components/mod.rs:950-970 | the delayed release does nothing to an occupied sensor; otherwise it drops the holder and resets the status from the stored level |
| Elements.SensorLevelStuck | src/control/rail_system/components/mod.rs:905-970 | as written, a held sensor that read high and then low is marked `Occupied` by the delayed release |
| Elements.SensorLevelStuckWitness | src/control/rail_system/components/mod.rs:868-970 | reserve, enter, leave, release: the released sensor is `Occupied` with no holder |
| Elements.SensorFreeEventCorrected | src/control/rail_system/components/mod.rs:927-948 | with the level recorded: a low report stores `LevelFree`; the status and timer behave as written |
| Elements.HandleSensorLevelCorrected | src/control/rail_system/components/mod.rs:905-948 | every report is stored as the sensor's level; high reports behave as written |
| Elements.ClearedSensorIsReleased | src/control/rail_system/components/mod.rs:905-987 | with the level recorded, a low report followed by the delayed release leaves the sensor free and unheld |
| Elements.NodeAt | src/control/rail_system/components/mod.rs:145-177 | a node lookup succeeds exactly for indices in range |
| Elements.NewSwitch | src/control/rail_system/components/mod.rs:672-683 | a new switch stands straight and is not acknowledged |
| Elements.SwitchTo | src/control/rail_system/components/mod.rs:743-763 | as written: no command is built exactly when the switch is acknowledged in `d`; otherwise the acknowledgement is cleared and the model emits the command for `d` that the source builds, but the stored direction is never changed |
| Elements.AckSwitchState | src/control/rail_system/components/mod.rs:765-782 | an acknowledgement matching the stored direction marks the switch updated; any other acknowledgement calls `switch` with the stored direction, so the model emits that command again |
| Elements.RequiredDir | src/control/rail_system/components/mod.rs:685-712 | a required direction exists exactly for switch nodes; a switch without a default connection is required `Curved`; otherwise it is `Straight` iff the path uses the default neighbour |
| Elements.RequestPath | src/control/rail_system/components/mod.rs:685-712 | a path over a non-switch node sends nothing; a request never changes the stored direction |
| Elements.RequestPathQuietIffInPosition | src/control/rail_system/components/mod.rs:685-741 | a path request is silent exactly when the switch is already in the correct state for that path; otherwise the model emits exactly one command, the one the source builds for the required direction |
| Elements.SwitchNeverSettles | src/control/rail_system/components/mod.rs:743-782 | as written, after commanding a new direction and the hardware acknowledging it, the switch is still not in that direction and it commands the old one again |
| Elements.SwitchToCorrected | src/control/rail_system/components/mod.rs:743-763 | with the direction stored, the switch afterwards holds `d`; it sends nothing exactly when it was already acknowledged in `d` |
| Elements.AckSwitchStateCorrected | src/control/rail_system/components/mod.rs:765-782 | as written, but over the corrected `switch` |
| Elements.RequestPathCorrected | src/control/rail_system/components/mod.rs:685-712 | with the direction stored, a request over a switch leaves it holding the required direction |
| Elements.SwitchSettlesAfterAck | src/control/rail_system/components/mod.rs:685-782 | with the direction stored, a path request and its acknowledgement leave the switch in the correct state, with nothing more to send |
| Elements.NewSignal | src/control/rail_system/components/mod.rs:1029-1045 | a new signal is free, with no trains and no requesters |
| Elements.TriggerUpdate | src/control/rail_system/components/mod.rs:1148-1157 | an update changes only the status: a `Reserved` or `Occupied` trigger is joined into it, `Free` and `PathFree` triggers change nothing, and an occupied signal stays occupied |
| Elements.TriggerUpdateIdempotent | src/control/rail_system/components/mod.rs:1148-1157 | applying the same trigger twice is applying it once |
| Locodrive.SpeedFromArg | src/control/rail_system/components/locodrive.rs:16-24 | every driver speed maps to the speed of the same kind and payload |
| Locodrive.SpeedToArg | src/control/rail_system/components/locodrive.rs:26-34 | every speed maps to the driver speed of the same kind and payload |
| Locodrive.SpeedConversionsRoundTrip | src/control/rail_system/components/locodrive.rs:16-34 | the two speed conversions are mutually inverse |
| Locodrive.SpeedToArgInjective | src/control/rail_system/components/locodrive.rs:26-34 | distinct speeds are sent as distinct driver arguments |
| Locodrive.SwitchDirectionOf | src/control/rail_system/components/locodrive.rs:36-43 | `Straight` maps to straight, and only `Straight` does |
| Locodrive.SwitchDirectionOfBijective | src/control/rail_system/components/locodrive.rs:36-43 | the direction conversion is a bijection, and it maps opposite directions to different values |
| Elements.IsDriveable | src/control/rail_system/components/mod.rs:170-177 | a node is driveable exactly when it is a sensor or station, not a signal, switch, crossing half or buffer |
| Elements.SwitchInCorrectState | src/control/rail_system/components/mod.rs:714-741 | a switch is in the right state only when it is a known switch node whose stored direction is acknowledged and equals the direction the passage needs |
| Trains.NewTrain | src/control/train.rs:50-63 | a new train stands at its position with no route |
| Trains.StandsIffNotAboveStop | src/control/train.rs:142-144 | a train stands exactly when its speed is at most `Stop`, i.e. when it is not driving; a new train stands |
| Trains.DriveOk | src/control/train.rs:158-172 | only the route changes; the route keeps its nodes, and exactly the first hop at the node is flagged as granted |
| Trains.DriveOkIdempotent | src/control/train.rs:158-172 | granting the same node twice is granting it once |
| Trains.FirstHopAtDependsOnNodes | src/control/train.rs:158-172 | which hop is flagged depends only on the route's nodes, not on the earlier flags |
| Trains.ScanSignals | src/control/train.rs:208-261 | the scan finds the first unflagged signal hop, and every signal hop before it is flagged |
| Trains.RequestNextBlock | src/control/train.rs:208-261 | no route gives nothing; an empty route is dropped; otherwise the train is unchanged, and a signal is requested exactly when it sits at the first ungranted signal hop and some signal hop before it is already granted |
| Trains.Stands | src/control/train.rs:142-144 | a train stands exactly when its speed is not a driving speed |
| Trains.FirstDriveableHop | src/control/train.rs:174-206 | the search finds the first hop on a sensor or station node |
| Trains.PopThrough | src/control/train.rs:174-206 | popping drops the route up to and including the first hop at the entered node, or the whole route when the node is absent |
| Trains.SensorEnteredConsumesPrefix | src/control/train.rs:174-206 | entering the next sensor or station of the route consumes exactly the hops through it, moves the train there and keeps its address and speed; entering any other node changes nothing |
| Trains.SensorEntered | src/control/train.rs:174-206 | the address and speed never change; without a route nothing changes; any change moves the train onto the entered node, and a follow-up request comes only then |
| Trains.FirstSignalWithAddress | src/control/train.rs:392-423 | the search finds the first hop on the signal with that address |
| Trains.FirstSignalHop | src/control/train.rs:392-423 | the search finds the first hop on any signal |
| Trains.RequestRoute | src/control/train.rs:392-423 | a slice is returned exactly when the route passes the signal; the slice starts at that signal and runs to the next signal, or to the end of the route, with no signal strictly inside |
| Trains.RevPositionDriveable | src/control/train.rs:350-386 | the reverse search finds the last sensor or station node on the path |
| Trains.Unflagged | src/control/train.rs:350-386 | every node of the path becomes an ungranted hop |
| Trains.TriggerDriveTo | src/control/train.rs:350-386 | without a path nothing changes; with one, the route becomes an ungranted prefix of the path that ends at its last sensor or station, or the whole path when it has none; only the route changes |
| Trains.ReasonFulfills | src/control/train.rs:517-525 | a time wait is fulfilled when its duration is zero; train conditions always are |
| Trains.AllTrueIsForall | src/control/train.rs:488 | the `all` fold holds exactly when every element holds |
| Trains.AnyTrueIsExists | src/control/train.rs:489 | the `any` fold holds exactly when some element holds |
| Trains.FoldXorIsOddParity | src/control/train.rs:490 | the xor fold holds exactly when the number of true elements is odd |
| Trains.FoldEqIsEvenFalses | src/control/train.rs:491-494 | the equality fold holds exactly when the number of false elements is even |
| Trains.XnorIsEvenFalses | src/control/train.rs:491-494 | the `XNOR` check, including the empty case, holds exactly when the number of false elements is even |
| Trains.Check | src/control/train.rs:481-497 | over no conditions `AND` and `XNOR` hold and `OR` and `XOR` fail; over one condition every connector gives that condition |
| Trains.Fulfills | src/control/train.rs:467-479 | a node without reasons or children is fulfilled exactly under `AND` or `XNOR` |
| Trains.FulfillsIsCheckOverAll | src/control/train.rs:467-497 | every node, nested or not, is one check of its connector over its waiters' results followed by its children's: AND needs all, OR one, XOR an odd number true, XNOR an even number false |
| Trains.CombineChecks | src/control/train.rs:467-479 | joining the waiters' check and the children's check with the node's own connector equals one check over both lists |
| Trains.CouldArrive | src/control/train.rs:447-449 | an empty arrival condition lets the train arrive exactly under `AND` or `XNOR` |
| Trains.CouldDepart | src/control/train.rs:451-453 | an empty departure condition lets the train depart exactly under `AND` or `XNOR` |
| Trains.CheckSemantics | src/control/train.rs:481-497 | `AND` means all, `OR` means some, `XOR` means an odd number true, and `XNOR` means an even number false |
| Trains.LeafFulfillsByWaiters | src/control/train.rs:467-497 | a node without children is fulfilled exactly when its own waiters pass its check |
| Trains.AndLeafWaitsForAllTimers | src/control/train.rs:467-525 | an `AND` node of timers is fulfilled exactly when every timer has run out |
| TrackGraph.SameEndsSameDegrees | src/control/rail_system/railroad.rs:689-714 | degrees depend only on edge endpoints, not on the rails the edges carry |
| TrackGraph.AppendCounts | src/control/rail_system/railroad.rs:716-729 | appending an edge raises the degrees of exactly its two endpoints by one |
| TrackGraph.AddNode | src/control/rail_system/railroad.rs:436-452 | adding a node returns the next index and leaves the edges alone |
| TrackGraph.FindEdge | src/control/rail_system/railroad.rs:716-729 | finds the first edge with those endpoints, or reports that none exists |
| TrackGraph.UpdateEdge | src/control/rail_system/railroad.rs:716-729 | an existing edge between the endpoints is replaced in place; otherwise a new edge is appended; either way the returned index holds the new edge |
| TrackGraph.UpdateEdgeDegrees | src/control/rail_system/railroad.rs:716-729 | replacing an edge keeps every degree; appending raises only the endpoints' degrees |
| TrackGraph.UpdateEdgeInRange | src/control/rail_system/railroad.rs:716-729 | updating an edge between existing nodes keeps every edge inside the graph |
| TrackGraph.InNeighbours | src/control/rail_system/railroad.rs:777-801 | one entry per incoming edge; a node is listed exactly when it has an edge into `n` |
| TrackGraph.OutNeighbours | src/control/rail_system/railroad.rs:777-801 | one entry per outgoing edge; a node is listed exactly when `n` has an edge to it |
| TrackGraph.ClosedSetHoldsPath | src/control/rail_system/railroad.rs:200-210 | a set that contains the start and is closed under predecessors contains every node reachable backwards |
| TrackGraph.ReachedExtend | src/control/rail_system/railroad.rs:200-210 | a predecessor of a visited node is reachable backwards through it |
| TrackGraph.EnqueuePreds | src/control/rail_system/railroad.rs:200-210 | visiting a node's predecessors marks all of them, each with a backward path, and queues only the new ones |
| TrackGraph.SignalOfBlock | src/control/rail_system/railroad.rs:200-210 | the reverse search returns a signal node reachable backwards from the block; it returns `None` exactly when no such node exists |
| Railroads.NewBuilder | src/control/rail_system/railroad.rs:336-347 | a new builder has an empty graph and empty registries |
| Railroads.NewBuilderWellFormed | src/control/rail_system/railroad.rs:336-347 | the empty builder is well formed |
| Railroads.SignalNodesUnique | src/control/rail_system/railroad.rs:551-566 | in a consistent railroad, each signal address has exactly one node |
| Railroads.AppendNodesKeepsRoadOk | src/control/rail_system/railroad.rs:436-665 | adding nodes without edges keeps every degree bound |
| Railroads.Register | src/control/rail_system/railroad.rs:436-452 | registering appends the new node indices to the address's entry, creating the entry when it is new, and leaves the other entries alone |
| Railroads.AddSensor | src/control/rail_system/railroad.rs:436-452 | appends one sensor node, returns its index, and registers it under its address; nothing else changes |
| Railroads.AddBidirectionalSensor | src/control/rail_system/railroad.rs:454-474 | appends two sensor nodes for one address and registers both; nothing else changes |
| Railroads.AddStation | src/control/rail_system/railroad.rs:501-517 | appends one station node and registers it as a sensor; nothing else changes |
| Railroads.AddBidirectionalStation | src/control/rail_system/railroad.rs:519-539 | appends two station nodes for one address and registers both; nothing else changes |
| Railroads.AddSwitch | src/control/rail_system/railroad.rs:611-633 | appends one switch node with no default connection, defaulting to the incoming side, and registers it; nothing else changes |
| Railroads.AddBidirectionalSwitch | src/control/rail_system/railroad.rs:635-665 | appends two switch nodes on the outgoing side and registers both; nothing else changes |
| Railroads.AddSignal | src/control/rail_system/railroad.rs:551-566 | an already known address is refused and nothing changes; otherwise one signal node is appended and registered |
| Railroads.AddCrossing | src/control/rail_system/railroad.rs:568-584 | an already known address is refused and nothing changes; otherwise two crossing nodes are appended and registered |
| Railroads.AddSignals | src/control/rail_system/railroad.rs:541-549 | the graph only grows and keeps its edges; the returned map holds exactly the addresses that were not known before, each mapped to its new node |
| Railroads.RegisterKeepsSwitchesConsistent | src/control/rail_system/railroad.rs:611-665 | registering new switch nodes under their address keeps every listed entry valid and every switch node listed |
| Railroads.AddSensorKeepsWellFormed | src/control/rail_system/railroad.rs:436-539 | all four sensor and station additions keep the railroad well formed |
| Railroads.AddSwitchKeepsWellFormed | src/control/rail_system/railroad.rs:611-665 | both switch additions keep the railroad well formed |
| Railroads.AddSignalKeepsWellFormed | src/control/rail_system/railroad.rs:551-566 | adding a signal keeps the railroad well formed |
| Railroads.AddCrossingKeepsWellFormed | src/control/rail_system/railroad.rs:568-584 | adding a crossing keeps the railroad well formed |
| Railroads.CanAddNeighbour | src/control/rail_system/railroad.rs:689-714 | the answer is unknown exactly for missing nodes; otherwise a neighbour fits exactly when the degree on that side is below the node's limit (two for switches, one for the rest) |
| Railroads.SwitchMaxNeighbours | src/control/rail_system/railroad.rs:690-697 | a switch takes another neighbour on a side exactly when it has fewer than two there |
| Railroads.Connect | src/control/rail_system/railroad.rs:716-729 | connects exactly when both ends accept a neighbour; a refusal changes nothing; on success only the edges change, and the returned index holds the edge |
| Railroads.ConnectKeepsRoadOk | src/control/rail_system/railroad.rs:689-729 | connecting keeps every node within its degree limit and the registries consistent |
| Railroads.ConnectBidirectional | src/control/rail_system/railroad.rs:731-749 | connects both directions exactly when all four ends accept; a refusal changes nothing; on success the two returned indices hold the forward and the reverse edge, only the edges change, and every other edge is kept |
| Railroads.ConnectBidirectionalIsUpdates | src/control/rail_system/railroad.rs:731-749 | an accepted connection is `update_edge` of the forward edge followed by `update_edge` of the reverse edge |
| Railroads.UpdateTwiceKeepsFirst | src/control/rail_system/railroad.rs:743-746 | after two `update_edge` calls the first edge is still at its index, and every edge outside the two indices is kept |
| Railroads.ConnectBidirectionalKeepsRoadOk | src/control/rail_system/railroad.rs:731-749 | when the two edges share no end node, the bidirectional connect keeps every degree limit |
| Railroads.ConnectBidirectionalSharedEndWitness | src/control/rail_system/railroad.rs:731-749 | the four checks all run before either edge is added, so two edges leaving the same sensor both pass and break its limit of one |
| Railroads.ConnectBidirectionalCorrected | src/control/rail_system/railroad.rs:731-749 | with each edge's ends checked right before it is added, a refusal changes nothing, a success is one the source also accepts, only the edges change, the two returned indices hold the forward and the reverse edge, and every other edge is kept |
| Railroads.ConnectBidirectionalCorrectedIsUpdates | src/control/rail_system/railroad.rs:731-749 | an accepted corrected connection makes the same two `update_edge` calls as the source |
| Railroads.ConnectBidirectionalCorrectedKeepsRoadOk | src/control/rail_system/railroad.rs:731-749 | the corrected connect keeps every degree limit, with or without a shared end |
| Railroads.ConnectBidirectionalCorrectedAgrees | src/control/rail_system/railroad.rs:731-749 | when the two edges share no end node, the corrected connect succeeds exactly when the source's does |
| Railroads.ConnectBidirectionalCorrectedRefusesSharedEnd | src/control/rail_system/railroad.rs:731-749 | on the three-sensor railroad where the source gives sensor 0 two outgoing edges, the corrected connect refuses and changes nothing |
| Railroads.CorrectedRefusesFullSecondEnd | src/control/rail_system/railroad.rs:731-749 | the corrected connect refuses, leaving the railroad unchanged, whenever the reverse edge's start has no room left once the forward edge is in |
| Railroads.SetSwitchDefaultDir | src/control/rail_system/railroad.rs:752-765 | only the switch node changes; it records the default connection, on the incoming side exactly when it has two incoming edges; a non-switch node is left alone |
| Railroads.SetSwitchDefaultDirBidirectional | src/control/rail_system/railroad.rs:768-775 | sets the default of both halves of a bidirectional switch, each toward its own connection, and changes no other node |
| Railroads.SetFirstNeighbourForSwitch | src/control/rail_system/railroad.rs:777-801 | a switch without a default connection gets the newest neighbour on its default side, the one petgraph yields first; a switch that has one, or a non-switch node, is unchanged; no other node changes |
| Railroads.ChooseFirstNeighbourChoice | src/control/rail_system/railroad.rs:777-801 | a switch without a default connection takes a predecessor when it has two of them, otherwise a successor when it has two of those, otherwise it stays as it was; its address, position and kind are kept |
| Railroads.ChooseFirstNeighbour | src/control/rail_system/railroad.rs:777-801 | a switch that has a default connection, or a non-switch node, is returned as is; a switch stays a switch with the same address, position and kind; a changed switch has a default connection on the incoming side exactly when it has two predecessors |
| Railroads.DefaultSide | src/control/rail_system/railroad.rs:752-765 | the default side is incoming exactly when the switch has two incoming edges |
| Railroads.SetFirstNeighbourIdempotent | src/control/rail_system/railroad.rs:777-801 | choosing a first neighbour twice is choosing it once |
| Railroads.SetFirstNeighbourIsLocal | src/control/rail_system/railroad.rs:777-801 | the chosen neighbour depends only on the switch node and the edges |
| Railroads.ReplaceSwitchKeepsWellFormed | src/control/rail_system/railroad.rs:752-801 | replacing a switch node by one with the same address keeps the railroad well formed |
| Railroads.SetFirstNeighbourKeepsWellFormed | src/control/rail_system/railroad.rs:777-801 | choosing a first neighbour keeps the railroad well formed |
| Railroads.SetSwitchDefaultDirKeepsWellFormed | src/control/rail_system/railroad.rs:752-765 | setting a default connection keeps the railroad well formed |
| Railroads.SwitchPass | src/control/rail_system/railroad.rs:804-813 | the build pass over the switches changes only node contents, never the edges or the registries |
| Railroads.SwitchPassPointwise | src/control/rail_system/railroad.rs:804-813 | after the pass, every node named in it looks as if its single first-neighbour step had run on the original railroad, and every other node is unchanged |
| Railroads.SwitchPassKeepsWellFormed | src/control/rail_system/railroad.rs:804-813 | the build pass keeps the railroad well formed |
| Railroads.SwitchPassOrderIrrelevant | src/control/rail_system/railroad.rs:804-813 | the pass gives the same railroad in any order over the same set of switches |
| Railroads.CreateTrain | src/control/rail_system/railroad.rs:68-91 | a train is created exactly on a sensor or station node whose sensor is registered and is unheld or held by that train; it then stands there and holds the sensor; a refusal changes nothing |
| Railroads.CreateTrainExclusive | src/control/rail_system/railroad.rs:68-91 | a second train cannot be created on a sensor another train was just created on |
| Railroads.NodeCost | src/control/rail_system/railroad.rs:245-291 | a node costs 500 exactly when it is a station, 100 when it is a sensor held by a standing train, 27 when it is held by a moving train, and 2 otherwise |
| Railroads.TrainCost | src/control/rail_system/railroad.rs:257-276 | a cost exists exactly when the sensor is held by a known train; it is 100 exactly when that train stands and 27 exactly when it moves |
| Railroads.NodePosition | src/control/rail_system/components/mod.rs:152-170 | a node's position is its own; a crossing's position is the registered crossing's, or the origin facing north when it is unknown |
| Railroads.EstimateCostsIsMetric | src/control/rail_system/railroad.rs:226-243 | the A* estimate is zero on the goal, symmetric, and satisfies the triangle inequality |
| Railroads.EstimateCosts | src/control/rail_system/railroad.rs:226-243 | the estimate is zero exactly when the node and the goal share a coordinate |
| Railroads.EdgeCost | src/control/rail_system/railroad.rs:171-195 | an edge costs at least its target node's cost plus one per rail |
| Railroads.RailsCostAtLeastCount | src/control/rail_system/railroad.rs:182-185 | the rail cost of an edge is at least its number of rails |
| Railroads.RailsCost | src/control/rail_system/railroad.rs:182-185 | the rail cost is zero exactly for no rails and is at least each rail's Manhattan length |
| SignalChecks.HandleCrossRoute | src/control/rail_system/components/signal_checks.rs:6-16 | crossing one half of a crossing pushes the other half onto the stack |
| SignalChecks.Partner | src/control/rail_system/components/signal_checks.rs:6-16 | the partner is one of the crossing's two halves, and it is the other half from the one entered |
| SignalChecks.PartnerInvolution | src/control/rail_system/components/signal_checks.rs:6-16 | the other half of the other half is the half you started from |
| SignalChecks.BlockBehaviour | src/control/rail_system/components/signal_checks.rs:151-167 | a block is granted exactly when every registered sensor among its addresses is free or path free (unknown addresses are skipped); the grant is the block's sensor list |
| SignalChecks.IsPathFree | src/control/rail_system/components/signal_checks.rs:169-200 | a path is free exactly when every node up to and including its first signal passes: sensors must be free, and the first signal must be free unless signals are ignored |
| SignalChecks.PathFreeAtFreeSignal | src/control/rail_system/components/signal_checks.rs:169-200 | a path that starts at a free signal is free, whatever follows |
| SignalChecks.SensorAddresses | src/control/rail_system/components/signal_checks.rs:139-146 | the granted list holds exactly the addresses of the sensor nodes on the path |
| SignalChecks.SensorAddressesAppend | src/control/rail_system/components/signal_checks.rs:139-146 | collecting addresses distributes over concatenating paths |
| SignalChecks.RegistriesMakeLookupsTotal | src/control/rail_system/railroad.rs:93-105 | in a consistent railroad whose routes stay inside the graph, every signal and sensor lookup succeeds |
| SignalChecks.LookupsTotalPath | src/control/rail_system/components/signal_checks.rs:169-200 | on such a railroad, path checks never fail a lookup on any in-graph path |
| SignalChecks.RequestedRoute | src/control/rail_system/components/signal_checks.rs:129-138 | the first requester's route is found exactly when there is a requester that is a known train passing this signal; it starts at this signal and has no signal strictly inside |
| SignalChecks.RequestRouteSliceShape | src/control/train.rs:392-423 | the requested slice starts at the signal and contains no other signal before its last node |
| SignalChecks.PathBehaviour | src/control/rail_system/components/signal_checks.rs:129-148 | as written: a path is granted exactly when a route is requested and `path_free` holds on the whole slice; the grant lists the slice's sensors |
| SignalChecks.PathFreeOnOwnRoute | src/control/rail_system/components/signal_checks.rs:129-200 | as written, the path check on the requested slice stops at the requesting signal itself, so it holds exactly when that signal is free or is a path signal |
| SignalChecks.PathBehaviourGrantsOccupiedSensor | src/control/rail_system/components/signal_checks.rs:129-200 | on a concrete railroad whose lookups all succeed, a free path signal grants the route slice `[5]` although sensor 5 is occupied |
| SignalChecks.PathBehaviourCorrected | src/control/rail_system/components/signal_checks.rs:129-148 | checking the slice after the requesting signal: granted exactly when a route is requested and that tail is free |
| SignalChecks.PathBehaviourCorrectedGrantsFreeSensors | src/control/rail_system/components/signal_checks.rs:129-200 | with the correction, every granted sensor is registered and free |
| SignalChecks.Drive | src/control/rail_system/components/signal_checks.rs:118-127 | a signal that is not free grants nothing; a block signal defers to the block check; path signals defer to the path check |
| SignalChecks.DriveGrantsKnownSensors | src/control/rail_system/components/signal_checks.rs:118-148 | a block grant is the block's sensors; a path grant lists only sensors that appear on the track graph |

## Left out

- Concurrency: every `Mutex`, `Arc`, `await` and `spawn` is gone, and each operation is one atomic state transition. This also drops the re-entrant lock in `get_signal_and_next` (components/mod.rs:1101-1111), which holds a signal's mutex while `path_free` locks it again.
- The broadcast channel: messages come back as returned lists.
- Unawaited sends: `Railroad::send` is an `async fn` (railroad.rs:221), and `switch` (components/mod.rs:760) and `handle_sensor_level` (components/mod.rs:917) call it without `.await`. The future is dropped unpolled, so as written the switch command and the `TrainOnSensor` announcement are never delivered. The model emits both messages, as the code evidently intends.
- Elements.SwitchTo: its returned switch command is one the source builds but never delivers (components/mod.rs:760).
- Elements.HandleSensorLevel: its returned `TrainOnSensor` announcement is one the source builds but never delivers (components/mod.rs:917).
- Elements.RequestPathQuietIffInPosition: the one command it counts is the undelivered one of `switch` (components/mod.rs:760).
- Elements.AckSwitchState: the command it emits on a mismatch comes from `switch`, so the source never delivers it either (components/mod.rs:760).
- `shortest_path`: the A* search itself is petgraph's. Only its cost function (`Railroads.EdgeCost`) and its heuristic (`Railroads.EstimateCosts`) are modelled.
- `abs_distance` and `sqrt_distance`: they use `f64`, and floating point is out of scope.
- The signal request protocol (`request_block`, `next`, `initialize`, `reset_group`, `block_free`, `neighbours_free`, `update`): these are asynchronous multi-signal handshakes, and only their building blocks are modelled.
- `search_block` and `search_node_neighbours` (signal_checks.rs:18-116): they compute the sensors of a block asynchronously. `SignalChecks.Drive` takes the block's sensor list as an argument.
- `set_speed`, `speed_accelerator`, `reset_position`, `trigger_drive_to_sensor` and `Train::update`: they are timed driving loops that talk to the hardware.
- The LocoNet connectors and the hardware driver: they are I/O.
- `remove_*`, the plural `add_*` other than `add_signals`, and `from_railroad`: they are map removals and loops over the singular operations that are modelled.
- `Address::address_arg` and `Address::from_arg` (locodrive.rs:6-14): they wrap a `u16` and carry no logic.
- Geometry.ManhattanDistance: `usize` overflow in the sum is not modelled, because the coordinates are unbounded.
- Trains.ReasonFulfills: a waiting reason's train is reduced to its address, because train conditions are always fulfilled.
- The timetable contents and station destinations: only their fulfilment (`could_arrive`, `could_depart`) is modelled.
- The signal `initialize` step of `build`: only the switch pass of `build` is modelled.
- Speeds.Add: a `u8` overflow panics in a debug build, so it is excluded by a precondition.
- Geometry.RotateBy: the same applies to the `u8` addition `self as u8 + rotation`.
- SignalChecks.IsPathFree: the lookups that `unwrap` in the source are required to succeed (`PathLookupsOk`). `RegistriesMakeLookupsTotal` shows that a consistent railroad meets this.
- SignalChecks.Drive: `SignalType::Block` carries its sensor list as an argument, not as a payload that `search_block` fills.
- Geometry.ConnectionByLength: `LengthsFit` requires every `len + 1` to stay in `usize` range, because the unchecked `*step + 1` (components/mod.rs:562) panics in a debug build and wraps to a zero step in a release build.
- Geometry.RailManhattan: the `usize` overflow of `(self.length + 1) * 2` (components/mod.rs:596-609) is not modelled, because lengths are unbounded.
- Railroads.EdgeCost: the `usize` overflow of the rail-cost `sum()` and of adding the node cost (railroad.rs:182-185) is not modelled, because costs are unbounded.
- Geometry.PerformStep: it uses the corrected northwest distance; the source subtracts one from the underflowing distance, which `Geometry.PerformStepNorthwestUnderflows` exhibits.
- Geometry.NewConnectionVec: it is built on `Geometry.PerformStep`, so it inherits the corrected northwest distance.
- Railroads.SwitchPass: a `HashMap`'s iteration order is an arbitrary sequence. `SwitchPassOrderIrrelevant` shows that the order does not matter.

## Findings

| source | as written | input that shows it | evidently intended | confidence | as-written member | corrected member |
|---|---|---|---|---|---|---|
| src/control/rail_system/components/mod.rs:83 with src/general/mod.rs:11-15 | `Drive(a) - Drive(b)` computes `b.sub_to_speed(a)`, i.e. `b - a` | `Drive(3) - Drive(10) == Drive(7)` | `a - b`, saturating at `Stop` | high, not executed | Speeds.Sub, Speeds.SubReversedWitness | Speeds.SubCorrected |
| src/control/rail_system/components/mod.rs:336-355 | the northwest distance subtracts in an order that underflows `usize` for any two distinct points on the line | from (0,1,0) to (1,0,0) northwest: -1, a panic or wrap | the number of steps, 1 | medium, not executed | Geometry.DistanceAsWritten, Geometry.DistanceNorthwestWitness, Geometry.PerformStepLengthAsWritten, Geometry.PerformStepNorthwestUnderflows | Geometry.Distance, Geometry.DistanceComplete, Geometry.PerformStep, Geometry.NewConnectionVec |
| src/control/rail_system/components/mod.rs:927-948 | a low sensor report never stores the new level, so the delayed release reads the stale high level | reserve, enter (high), leave (low), release: the sensor stays `Occupied` | store the reported level, so the release frees the sensor | medium, not executed | Elements.HandleSensorLevel, Elements.SensorLevelStuck | Elements.HandleSensorLevelCorrected, Elements.ClearedSensorIsReleased |
| src/control/rail_system/components/mod.rs:743-763 | `switch` builds the command for the new direction but never stores it, so the acknowledgement for it is treated as wrong and the old direction is commanded again | a straight switch asked for `Curved`, then acknowledged `Curved` | store the commanded direction before sending | high, not executed | Elements.SwitchTo, Elements.SwitchNeverSettles | Elements.SwitchToCorrected, Elements.SwitchSettlesAfterAck |
| src/control/rail_system/components/signal_checks.rs:129-148 with src/control/train.rs:405-421 | the route slice begins at the requesting signal, so `path_free` stops at its first node and never inspects a sensor | a free path signal whose slice runs through an occupied sensor is granted | check the slice after the requesting signal | medium, not executed | SignalChecks.PathBehaviour, SignalChecks.PathBehaviourGrantsOccupiedSensor | SignalChecks.PathBehaviourCorrected, SignalChecks.PathBehaviourCorrectedGrantsFreeSensors |
| src/control/rail_system/railroad.rs:731-749 | `connect_bidirectional` checks all four ends before adding either edge, so the first edge can use up the room the second one was checked against | three sensors, connecting `(0, 1)` and `(2, 0)`: sensor 0 gets two outgoing edges | check each edge's ends right before adding it, and refuse when the second no longer fits | medium, not executed | Railroads.ConnectBidirectional, Railroads.ConnectBidirectionalSharedEndWitness | Railroads.ConnectBidirectionalCorrected, Railroads.ConnectBidirectionalCorrectedKeepsRoadOk |
