/** Track geometry: compass directions, grid coordinates, positions and the
    straight rail pieces that edges of the track graph are made of
    (src/control/rail_system/components/mod.rs). */
module Geometry {
  import opened Primitives

  /** `Direction`, `#[repr(u8)]` with discriminants 0 to 9 in this order. */
  datatype Direction =
    | North | Northeast | East | Southeast | South | Southwest | West | Northwest
    | Up | Down

  /** `d as u8`. */
  function ToU8(d: Direction): (n: u8)
    ensures n < 10
  {
    match d
    case North => 0
    case Northeast => 1
    case East => 2
    case Southeast => 3
    case South => 4
    case Southwest => 5
    case West => 6
    case Northwest => 7
    case Up => 8
    case Down => 9
  }

  /** `impl From<u8> for Direction`: the number is taken modulo 10. */
  function FromU8(n: u8): (d: Direction)
    ensures ToU8(d) == n % 10
  {
    match n % 10
    case 0 => North
    case 1 => Northeast
    case 2 => East
    case 3 => Southeast
    case 4 => South
    case 5 => Southwest
    case 6 => West
    case 7 => Northwest
    case 8 => Up
    case _ => Down
  }

  predicate IsHorizontal(d: Direction)
  {
    !d.Up? && !d.Down?
  }

  /** `impl Not for Direction`: the opposite direction. */
  function Not(d: Direction): (r: Direction)
    ensures IsHorizontal(r) <==> IsHorizontal(d)
    ensures r != d
  {
    match d
    case North => South
    case Northeast => Southwest
    case East => West
    case Southeast => Northwest
    case South => North
    case Southwest => Northeast
    case West => East
    case Northwest => Southeast
    case Up => Down
    case Down => Up
  }

  /** `Direction::rotate_by`: a rotation by one unit is 45 degrees to the
      right. The sum `d as u8 + rotation` is an unchecked `u8` addition. The
      result is always taken modulo 8, so `Up` and `Down` are mapped into the
      horizontal plane. */
  function RotateBy(d: Direction, rotation: u8): (r: Direction)
    requires ToU8(d) + rotation < U8_LIMIT
    ensures IsHorizontal(r)
    ensures ToU8(r) == (ToU8(d) + rotation) % 8
  {
    match (ToU8(d) + rotation) % 8
    case 0 => North
    case 1 => Northeast
    case 2 => East
    case 3 => Southeast
    case 4 => South
    case 5 => Southwest
    case 6 => West
    case _ => Northwest
  }

  /** One 45 degree turn to the right. */
  function RotateRight(d: Direction): (r: Direction)
    ensures IsHorizontal(r)
    ensures ToU8(r) == (ToU8(d) + 1) % 8
  {
    RotateBy(d, 1)
  }

  /** One 45 degree turn to the left, written as seven turns right. */
  function RotateLeft(d: Direction): (r: Direction)
    ensures IsHorizontal(r)
    ensures ToU8(r) == (ToU8(d) + 7) % 8
  {
    RotateBy(d, 7)
  }

  /** Negation is an involution, and `from` inverts `as u8`. */
  lemma DirectionRoundTrips(d: Direction)
    ensures Not(Not(d)) == d
    ensures FromU8(ToU8(d)) == d
  {
  }

  /** For horizontal directions rotating left undoes rotating right. */
  lemma RotateLeftUndoesRight(d: Direction)
    requires IsHorizontal(d)
    ensures RotateLeft(RotateRight(d)) == d
  {
    var r := RotateRight(d);
    assert ToU8(d) < 8;
    assert ToU8(r) == (ToU8(d) + 1) % 8;
    assert ToU8(RotateLeft(r)) == (ToU8(r) + 7) % 8 == ToU8(d);
    DirectionRoundTrips(d);
    DirectionRoundTrips(RotateLeft(r));
  }

  /** For horizontal directions negation is a rotation by 180 degrees. */
  lemma NotIsHalfTurn(d: Direction)
    requires IsHorizontal(d)
    ensures Not(d) == RotateBy(d, 4)
  {
  }

  /** Rotation forgets the vertical directions: `Up` rotated by zero is `North`. */
  lemma RotateDropsVertical()
    ensures RotateBy(Up, 0) == North
    ensures RotateBy(Down, 0) == Northeast
  {
  }

  /** A grid coordinate `Coord(x, y, z)` of `usize` components. */
  datatype Coord = Coord(x: usize, y: usize, z: usize)

  /** Integer vectors, used to state where a walk along a direction ends. */
  datatype Vec3 = Vec3(x: int, y: int, z: int)

  function AsVec(c: Coord): Vec3
  {
    Vec3(c.x, c.y, c.z)
  }

  /** The point `n` units from `c` along the unit vector `v`. */
  function Along(c: Coord, v: Vec3, n: int): Vec3
  {
    Vec3(c.x + n * v.x, c.y + n * v.y, c.z + n * v.z)
  }

  /** Unit vector of a direction as `Coord::is_on_line` and
      `Coord::distance` read it: `North` is towards larger `x`, `East`
      towards larger `y`, `Up` towards larger `z`. */
  function LineDelta(d: Direction): Vec3
  {
    match d
    case North => Vec3(1, 0, 0)
    case Northeast => Vec3(1, 1, 0)
    case East => Vec3(0, 1, 0)
    case Southeast => Vec3(-1, 1, 0)
    case South => Vec3(-1, 0, 0)
    case Southwest => Vec3(-1, -1, 0)
    case West => Vec3(0, -1, 0)
    case Northwest => Vec3(1, -1, 0)
    case Up => Vec3(0, 0, 1)
    case Down => Vec3(0, 0, -1)
  }

  /** Unit vector of a direction as `Coord::step` reads it: `North` is
      towards SMALLER `x`; the other two axes agree with `LineDelta`. */
  function StepDelta(d: Direction): Vec3
  {
    match d
    case North => Vec3(-1, 0, 0)
    case Northeast => Vec3(-1, 1, 0)
    case East => Vec3(0, 1, 0)
    case Southeast => Vec3(1, 1, 0)
    case South => Vec3(1, 0, 0)
    case Southwest => Vec3(1, -1, 0)
    case West => Vec3(0, -1, 0)
    case Northwest => Vec3(-1, -1, 0)
    case Up => Vec3(0, 0, 1)
    case Down => Vec3(0, 0, -1)
  }

  /** The two conventions use opposite signs on the x axis and agree on
      the others. */
  lemma StepAndLineDisagreeOnX(d: Direction)
    ensures StepDelta(d).x == -LineDelta(d).x
    ensures StepDelta(d).y == LineDelta(d).y && StepDelta(d).z == LineDelta(d).z
  {
  }

  /** The signed number of unit steps along `LineDelta(dir)` from `a` to
      `b`, read off one axis the direction moves on. */
  function AxisSteps(a: Coord, b: Coord, dir: Direction): int
  {
    var v := LineDelta(dir);
    if v.x != 0 then (b.x - a.x) * v.x
    else if v.y != 0 then (b.y - a.y) * v.y
    else (b.z - a.z) * v.z
  }

  /** `Coord::is_on_line`: whether `b` lies on the ray from `a` in direction
      `dir`, i.e. some whole number of unit steps along `LineDelta(dir)`
      leads from `a` to `b`. */
  function IsOnLine(a: Coord, b: Coord, dir: Direction): (r: bool)
    ensures r <==> 0 <= AxisSteps(a, b, dir) && AsVec(b) == Along(a, LineDelta(dir), AxisSteps(a, b, dir))
  {
    var diagonal := a.z == b.z && AbsDiff(a.x, b.x) == AbsDiff(a.y, b.y);
    match dir
    case North => a.y == b.y && a.z == b.z && a.x <= b.x
    case Northeast => diagonal && a.x <= b.x && a.y <= b.y
    case East => a.x == b.x && a.z == b.z && a.y <= b.y
    case Southeast => diagonal && a.x >= b.x && a.y <= b.y
    case South => a.y == b.y && a.z == b.z && a.x >= b.x
    case Southwest => diagonal && a.x >= b.x && a.y >= b.y
    case West => a.x == b.x && a.z == b.z && a.y >= b.y
    case Northwest => diagonal && a.x <= b.x && a.y >= b.y
    case Up => a.x == b.x && a.y == b.y && a.z <= b.z
    case Down => a.x == b.x && a.y == b.y && a.z >= b.z
  }

  /** `Coord::distance` exactly as written, with the unchecked `usize`
      subtraction kept as an unbounded integer so that an underflow shows up
      as a negative value. */
  function DistanceAsWritten(a: Coord, b: Coord, dir: Direction): (r: Option<int>)
    ensures r.None? <==> !IsOnLine(a, b, dir)
  {
    if !IsOnLine(a, b, dir) then None
    else Some(match dir
      case North => b.x - a.x
      case Northeast => b.x - a.x
      case East => b.y - a.y
      case Southeast => a.x - b.x
      case South => a.x - b.x
      case Southwest => a.x - b.x
      case West => a.y - b.y
      case Northwest => a.x - b.x
      case Up => b.z - a.z
      case Down => a.z - b.z)
  }

  /** `Coord::distance` with the `Northwest` case corrected to `b.x - a.x`,
      the orientation `is_on_line` demands for that direction. It is the
      number of unit steps along `LineDelta(dir)` that lead from `a` to `b`. */
  function Distance(a: Coord, b: Coord, dir: Direction): (r: Option<usize>)
    ensures r.None? <==> !IsOnLine(a, b, dir)
    ensures r.Some? ==> AsVec(b) == Along(a, LineDelta(dir), r.value)
  {
    if !IsOnLine(a, b, dir) then None
    else Some(match dir
      case North => b.x - a.x
      case Northeast => b.x - a.x
      case East => b.y - a.y
      case Southeast => a.x - b.x
      case South => a.x - b.x
      case Southwest => a.x - b.x
      case West => a.y - b.y
      case Northwest => b.x - a.x
      case Up => b.z - a.z
      case Down => a.z - b.z)
  }

  /** Converse of `Distance`'s contract: whenever `b` is `n >= 0` unit steps
      from `a` along `dir`, the distance is `Some(n)`. */
  lemma DistanceComplete(a: Coord, b: Coord, dir: Direction, n: int)
    requires 0 <= n
    requires AsVec(b) == Along(a, LineDelta(dir), n)
    ensures Distance(a, b, dir) == Some(n)
  {
    assert IsOnLine(a, b, dir);
  }

  /** As written, `distance` along `Northwest` computes `a.x - b.x` although
      `is_on_line` only admits `a.x <= b.x`: the result is negative (a `usize`
      underflow) for every pair of distinct coordinates on that line. */
  lemma DistanceNorthwestUnderflows(a: Coord, b: Coord)
    requires IsOnLine(a, b, Northwest) && a != b
    ensures DistanceAsWritten(a, b, Northwest).value < 0
  {
  }

  lemma DistanceNorthwestWitness()
    ensures DistanceAsWritten(Coord(0, 1, 0), Coord(1, 0, 0), Northwest) == Some(-1)
    ensures Distance(Coord(0, 1, 0), Coord(1, 0, 0), Northwest) == Some(1)
  {
  }

  /** Apart from `Northwest` the written distance is the corrected one. */
  lemma DistanceAsWrittenElsewhere(a: Coord, b: Coord, dir: Direction)
    requires dir != Northwest && IsOnLine(a, b, dir)
    ensures DistanceAsWritten(a, b, dir) == Some(Distance(a, b, dir).value as int)
  {
  }

  predicate InRange(v: Vec3)
  {
    0 <= v.x < USIZE_LIMIT && 0 <= v.y < USIZE_LIMIT && 0 <= v.z < USIZE_LIMIT
  }

  /** `Coord::step`: `amount` unit steps along `StepDelta(dir)`, or `None`
      when a component would leave the `usize` range. */
  function Step(c: Coord, dir: Direction, amount: usize): (r: Option<Coord>)
    ensures r.Some? && IsHorizontal(dir) ==> r.value.z == c.z
    ensures amount == 0 ==> r == Some(c)
  {
    match dir
    case North =>
      var x :- CheckedSub(c.x, amount); Some(Coord(x, c.y, c.z))
    case Northeast =>
      var x :- CheckedSub(c.x, amount); var y :- CheckedAdd(c.y, amount); Some(Coord(x, y, c.z))
    case East =>
      var y :- CheckedAdd(c.y, amount); Some(Coord(c.x, y, c.z))
    case Southeast =>
      var x :- CheckedAdd(c.x, amount); var y :- CheckedAdd(c.y, amount); Some(Coord(x, y, c.z))
    case South =>
      var x :- CheckedAdd(c.x, amount); Some(Coord(x, c.y, c.z))
    case Southwest =>
      var x :- CheckedAdd(c.x, amount); var y :- CheckedSub(c.y, amount); Some(Coord(x, y, c.z))
    case West =>
      var y :- CheckedSub(c.y, amount); Some(Coord(c.x, y, c.z))
    case Northwest =>
      var x :- CheckedSub(c.x, amount); var y :- CheckedSub(c.y, amount); Some(Coord(x, y, c.z))
    case Up =>
      var z :- CheckedAdd(c.z, amount); Some(Coord(c.x, c.y, z))
    case Down =>
      var z :- CheckedSub(c.z, amount); Some(Coord(c.x, c.y, z))
  }

  /** A step of `amount` units is the walk along `StepDelta(dir)`, defined
      exactly when that walk stays inside the `usize` range. */
  lemma StepMovesAlong(c: Coord, dir: Direction, amount: usize)
    ensures Step(c, dir, amount).Some? <==> InRange(Along(c, StepDelta(dir), amount))
    ensures Step(c, dir, amount).Some? ==> AsVec(Step(c, dir, amount).value) == Along(c, StepDelta(dir), amount)
  {
  }

  /** Along `East`, `West`, `Up` and `Down` the two conventions agree, so a
      step of `n` units is measured back as a distance of `n`. */
  lemma StepDistanceRoundTrip(c: Coord, dir: Direction, n: usize)
    requires dir in {East, West, Up, Down}
    requires Step(c, dir, n).Some?
    ensures Distance(c, Step(c, dir, n).value, dir) == Some(n)
  {
    StepMovesAlong(c, dir, n);
    DistanceComplete(c, Step(c, dir, n).value, dir, n);
  }

  /** Along every direction with an x component a real step lands OFF the
      line `is_on_line` sees in that direction. */
  lemma StepLeavesLineOnXAxis(c: Coord, dir: Direction, n: usize)
    requires StepDelta(dir).x != 0 && 0 < n
    requires Step(c, dir, n).Some?
    ensures !IsOnLine(c, Step(c, dir, n).value, dir)
  {
    StepMovesAlong(c, dir, n);
  }

  /** `Coord::manhattan_distance`. */
  function ManhattanDistance(a: Coord, b: Coord): (r: nat)
    ensures r == 0 <==> a == b
    ensures AbsDiff(a.x, b.x) <= r && AbsDiff(a.y, b.y) <= r && AbsDiff(a.z, b.z) <= r
  {
    AbsDiff(a.x, b.x) + AbsDiff(a.y, b.y) + AbsDiff(a.z, b.z)
  }

  function ManhattanVec(a: Vec3, b: Vec3): nat
  {
    AbsDiff(a.x, b.x) + AbsDiff(a.y, b.y) + AbsDiff(a.z, b.z)
  }

  /** The Manhattan distance is a metric: symmetric, zero exactly on equal
      coordinates, and obeying the triangle inequality. */
  lemma ManhattanIsMetric(a: Coord, b: Coord, c: Coord)
    ensures ManhattanDistance(a, b) == ManhattanDistance(b, a)
    ensures ManhattanDistance(a, b) == 0 <==> a == b
    ensures ManhattanDistance(a, c) <= ManhattanDistance(a, b) + ManhattanDistance(b, c)
  {
    AbsDiffIsMetric(a.x, b.x, c.x);
    AbsDiffIsMetric(a.y, b.y, c.y);
    AbsDiffIsMetric(a.z, b.z, c.z);
  }

  /** The distance on one axis is a metric. */
  lemma AbsDiffIsMetric(a: int, b: int, c: int)
    ensures AbsDiff(a, b) == AbsDiff(b, a)
    ensures AbsDiff(a, b) == 0 <==> a == b
    ensures AbsDiff(a, c) <= AbsDiff(a, b) + AbsDiff(b, c)
  {
  }

  /** `Position`: a coordinate and the direction a track piece points to. */
  datatype Position = Position(coord: Coord, dir: Direction)

  /** `Position::step`. */
  function PositionStep(p: Position, amount: usize): (r: Option<Position>)
    ensures r.Some? <==> Step(p.coord, p.dir, amount).Some?
    ensures r.Some? ==> r.value.dir == p.dir && r.value.coord == Step(p.coord, p.dir, amount).value
  {
    var c :- Step(p.coord, p.dir, amount);
    Some(Position(c, p.dir))
  }

  /** `Position::rotate_by`. */
  function PositionRotateBy(p: Position, rotation: u8): (r: Position)
    requires ToU8(p.dir) + rotation < U8_LIMIT
    ensures r.coord == p.coord && IsHorizontal(r.dir)
    ensures ToU8(r.dir) == (ToU8(p.dir) + rotation) % 8
  {
    p.(dir := RotateBy(p.dir, rotation))
  }

  /** A position facing a compass direction comes back to itself when it is
      turned by `rotation` and then by the rest of a full turn. */
  lemma PositionRotateByUndone(p: Position, rotation: u8)
    requires IsHorizontal(p.dir) && ToU8(p.dir) + rotation < U8_LIMIT
    ensures PositionRotateBy(PositionRotateBy(p, rotation), (8 - rotation % 8) as u8) == p
  {
    var q := PositionRotateBy(p, rotation);
    var back := (8 - rotation % 8) as u8;
    var r := PositionRotateBy(q, back);
    assert ToU8(p.dir) < 8;
    TurnBack(ToU8(p.dir), rotation);
    DirectionRoundTrips(p.dir);
    DirectionRoundTrips(r.dir);
  }

  /** Turning a compass index by `rot` and then by the rest of a full turn
      gives it back. */
  lemma TurnBack(d: int, rot: int)
    requires 0 <= d < 8 && 0 <= rot
    ensures ((d + rot) % 8 + (8 - rot % 8)) % 8 == d
  {
    var k := rot % 8;
    assert rot == 8 * (rot / 8) + k;
    assert (d + rot) % 8 == (d + k) % 8;
    if d + k < 8 {
      assert (d + k) % 8 == d + k;
    } else {
      assert (d + k) % 8 == d + k - 8;
    }
  }

  /** `Rail`: a straight piece covering `length + 1` grid cells from `pos`,
      entered from `startDir`. */
  datatype Rail = Rail(length: usize, pos: Position, startDir: Direction)

  /** Whether a rail can run from `p` to the coordinate `c`. */
  predicate Joinable(p: Position, c: Coord)
  {
    p.coord != c && IsOnLine(p.coord, c, p.dir)
  }

  /** `Rail::perform_step`: the rail from `start` up to (excluding) `end`. */
  function PerformStep(start: Position, end: Coord, inDir: Direction): (r: Option<Rail>)
    ensures r.None? <==> !Joinable(start, end)
    ensures r.Some? ==> r.value.pos == start && r.value.startDir == inDir
    ensures r.Some? ==> AsVec(end) == Along(start.coord, LineDelta(start.dir), r.value.length + 1)
  {
    if start.coord == end then None
    else
      var d :- Distance(start.coord, end, start.dir);
      Some(Rail(d - 1, start, inDir))
  }

  /** The rail length `Rail::perform_step` computes as written, from the
      written `distance` minus one, kept as an unbounded integer: a negative
      value is a `usize` underflow. */
  function PerformStepLengthAsWritten(start: Position, end: Coord): (r: Option<int>)
    ensures r.None? <==> !Joinable(start, end)
  {
    if start.coord == end then None
    else
      var d :- DistanceAsWritten(start.coord, end, start.dir);
      Some(d - 1)
  }

  /** Away from `Northwest` the written step builds the rail `PerformStep`
      builds. */
  lemma PerformStepAsWrittenElsewhere(start: Position, end: Coord, inDir: Direction)
    requires start.dir != Northwest
    ensures PerformStepLengthAsWritten(start, end).Some? ==>
      PerformStep(start, end, inDir) == Some(Rail(PerformStepLengthAsWritten(start, end).value, start, inDir))
  {
    if Joinable(start, end) {
      DistanceAsWrittenElsewhere(start.coord, end, start.dir);
    }
  }

  /** From a `Northwest` position every joinable end makes the written
      distance underflow, where `PerformStep` builds a rail. */
  lemma PerformStepNorthwestUnderflows(start: Position, end: Coord, inDir: Direction)
    requires start.dir == Northwest && Joinable(start, end)
    ensures DistanceAsWritten(start.coord, end, Northwest).value < 0
    ensures PerformStepLengthAsWritten(start, end).value < -1
    ensures PerformStep(start, end, inDir).Some?
  {
    DistanceNorthwestUnderflows(start.coord, end);
  }

  /** The example of the underflow: one cell northwest. */
  lemma PerformStepNorthwestWitness()
    ensures PerformStepLengthAsWritten(Position(Coord(0, 1, 0), Northwest), Coord(1, 0, 0)) == Some(-2)
    ensures PerformStep(Position(Coord(0, 1, 0), Northwest), Coord(1, 0, 0), North) == Some(Rail(0, Position(Coord(0, 1, 0), Northwest), North))
  {
    var start := Position(Coord(0, 1, 0), Northwest);
    DistanceNorthwestWitness();
    assert IsOnLine(start.coord, Coord(1, 0, 0), Northwest);
    assert PerformStepLengthAsWritten(start, Coord(1, 0, 0)) == Some(-1 - 1);
  }

  /** Entry direction of rail `i` in a chain started with `inDir`. */
  function EntryDir(dirs: seq<Direction>, inDir: Direction, i: nat): Direction
    requires i <= |dirs|
  {
    if i == 0 then inDir else Not(dirs[i - 1])
  }

  function DirsOf(steps: seq<Position>): (r: seq<Direction>)
    ensures |r| == |steps|
    ensures forall i :: 0 <= i < |steps| ==> r[i] == steps[i].dir
  {
    seq(|steps|, i requires 0 <= i < |steps| => steps[i].dir)
  }

  /** Rail `i` of a connection runs from waypoint `i`, entered as the
      chain demands, and ends one cell before waypoint `i + 1`. */
  predicate SpansWaypoints(rail: Rail, steps: seq<Position>, inDir: Direction, i: nat)
    requires i + 1 < |steps|
  {
    && rail.pos == steps[i]
    && rail.startDir == EntryDir(DirsOf(steps), inDir, i)
    && AsVec(steps[i + 1].coord) == Along(steps[i].coord, LineDelta(steps[i].dir), rail.length + 1)
  }

  /** Every rail of `rails` spans its pair of waypoints. */
  predicate AllSpan(rails: seq<Rail>, steps: seq<Position>, inDir: Direction)
    requires |rails| < |steps|
  {
    forall i :: 0 <= i < |rails| ==> SpansWaypoints(rails[i], steps, inDir, i)
  }

  /** Appending the rail for the next pair keeps every rail spanning. */
  lemma AllSpanAppend(rails: seq<Rail>, rail: Rail, steps: seq<Position>, inDir: Direction)
    requires |rails| + 1 < |steps|
    requires AllSpan(rails, steps, inDir) && SpansWaypoints(rail, steps, inDir, |rails|)
    ensures AllSpan(rails + [rail], steps, inDir)
  {
    forall i | 0 <= i < |rails| + 1
      ensures SpansWaypoints((rails + [rail])[i], steps, inDir, i)
    {
      if i < |rails| {
        assert (rails + [rail])[i] == rails[i];
      }
    }
  }

  /** `Rail::new_connection_vec`: one rail between each two consecutive
      waypoints; `None` for no waypoints or when a pair cannot be joined. */
  method NewConnectionVec(steps: seq<Position>, inDir: Direction) returns (r: Option<seq<Rail>>)
    ensures r.None? <==> |steps| == 0 || exists i :: 0 <= i < |steps| - 1 && !Joinable(steps[i], steps[i + 1].coord)
    ensures r.Some? ==> |r.value| == |steps| - 1
    ensures r.Some? ==> forall i :: 0 <= i < |r.value| ==> SpansWaypoints(r.value[i], steps, inDir, i)
  {
    if |steps| == 0 {
      return None;
    }
    ghost var dirs := DirsOf(steps);
    var rails: seq<Rail> := [];
    var previous := steps[0];
    var dir := inDir;
    var k := 1;
    while k < |steps|
      invariant 1 <= k <= |steps|
      invariant |rails| == k - 1
      invariant previous == steps[k - 1]
      invariant dir == EntryDir(dirs, inDir, k - 1)
      invariant forall i :: 0 <= i < k - 1 ==> Joinable(steps[i], steps[i + 1].coord)
      invariant AllSpan(rails, steps, inDir)
    {
      var rail := PerformStep(previous, steps[k].coord, dir);
      if rail.None? {
        assert !Joinable(steps[k - 1], steps[k].coord);
        return None;
      }
      assert SpansWaypoints(rail.value, steps, inDir, k - 1);
      AllSpanAppend(rails, rail.value, steps, inDir);
      rails := rails + [rail.value];
      dir := Not(previous.dir);
      previous := steps[k];
      k := k + 1;
    }
    return Some(rails);
  }

  /** Every length plus one still fits a `usize` (the source adds one
      without a check). */
  predicate LengthsFit(steps: seq<(usize, Direction)>)
  {
    forall i :: 0 <= i < |steps| ==> steps[i].0 + 1 < USIZE_LIMIT
  }

  /** Whether walking the instructions from `c`, each `(len, dir)` moving
      `len + 1` units along `dir`, stays inside the coordinate range. */
  predicate ChainOk(c: Coord, steps: seq<(usize, Direction)>)
    requires LengthsFit(steps)
    decreases |steps|
  {
    |steps| == 0 ||
    (Step(c, steps[0].1, steps[0].0 + 1).Some? &&
     ChainOk(Step(c, steps[0].1, steps[0].0 + 1).value, steps[1..]))
  }

  function InstrDirs(steps: seq<(usize, Direction)>): (r: seq<Direction>)
    ensures |r| == |steps|
    ensures forall i :: 0 <= i < |steps| ==> r[i] == steps[i].1
  {
    seq(|steps|, i requires 0 <= i < |steps| => steps[i].1)
  }

  /** Rail `i` of a connection carries instruction `i` and the entry
      direction the chain demands. */
  predicate FollowsInstruction(rail: Rail, steps: seq<(usize, Direction)>, inDir: Direction, i: nat)
    requires i < |steps|
  {
    && rail.length == steps[i].0
    && rail.pos.dir == steps[i].1
    && rail.startDir == EntryDir(InstrDirs(steps), inDir, i)
  }

  /** `next` is where instruction `i` leads from the start of `rail`. */
  predicate StepsTo(rail: Rail, steps: seq<(usize, Direction)>, i: nat, next: Coord)
    requires i < |steps| && LengthsFit(steps)
  {
    Step(rail.pos.coord, steps[i].1, steps[i].0 + 1) == Some(next)
  }

  /** One instruction of a chain: the walk from `c` through the
      instructions from `k` on is the step of instruction `k` followed by
      the walk through the rest. */
  lemma ChainOkUnfold(c: Coord, steps: seq<(usize, Direction)>, k: nat)
    requires LengthsFit(steps) && k < |steps|
    ensures ChainOk(c, steps[k..]) <==>
      && Step(c, steps[k].1, steps[k].0 + 1).Some?
      && ChainOk(Step(c, steps[k].1, steps[k].0 + 1).value, steps[k + 1..])
  {
    assert steps[k..][1..] == steps[k + 1..];
  }

  /** The rails laid for the first `k` instructions: one per instruction,
      each following its instruction and ending where the next begins, the
      last one leading to `pos`. */
  predicate RailsFollow(steps: seq<(usize, Direction)>, inDir: Direction, start: Coord,
                        k: nat, rails: seq<Rail>, pos: Coord)
    requires LengthsFit(steps) && k <= |steps|
  {
    && |rails| == k
    && (k == 0 ==> pos == start)
    && (0 < k ==> rails[0].pos.coord == start)
    && (0 < k ==> StepsTo(rails[k - 1], steps, k - 1, pos))
    && (forall i :: 0 <= i < k ==> FollowsInstruction(rails[i], steps, inDir, i))
    && (forall i :: 0 <= i < k - 1 ==> StepsTo(rails[i], steps, i, rails[i + 1].pos.coord))
  }

  /** Loop invariant of `ConnectionByLength` after `k` instructions: the
      rails so far follow the instructions, and the whole chain is in range
      exactly when the rest from `pos` is. */
  predicate ChainInvariant(steps: seq<(usize, Direction)>, inDir: Direction, start: Coord,
                           k: nat, rails: seq<Rail>, pos: Coord, dir: Direction)
    requires LengthsFit(steps)
  {
    && k <= |steps|
    && dir == EntryDir(InstrDirs(steps), inDir, k)
    && (ChainOk(start, steps) <==> ChainOk(pos, steps[k..]))
    && RailsFollow(steps, inDir, start, k, rails, pos)
  }

  /** The rail of instruction `k`, laid from `pos`, extends the rails. */
  lemma RailsFollowStep(steps: seq<(usize, Direction)>, inDir: Direction, start: Coord,
                        k: nat, rails: seq<Rail>, pos: Coord, dir: Direction, next: Coord)
    requires LengthsFit(steps) && k < |steps|
    requires RailsFollow(steps, inDir, start, k, rails, pos)
    requires dir == EntryDir(InstrDirs(steps), inDir, k)
    requires Step(pos, steps[k].1, steps[k].0 + 1) == Some(next)
    ensures RailsFollow(steps, inDir, start, k + 1, rails + [Rail(steps[k].0, Position(pos, steps[k].1), dir)], next)
  {
    var rail := Rail(steps[k].0, Position(pos, steps[k].1), dir);
    var rails' := rails + [rail];
    assert StepsTo(rail, steps, k, next);
    assert FollowsInstruction(rail, steps, inDir, k);
    assert forall i :: 0 <= i < k ==> rails'[i] == rails[i];
    assert forall i :: 0 <= i < k + 1 ==> FollowsInstruction(rails'[i], steps, inDir, i);
    assert forall i :: 0 <= i < k ==> StepsTo(rails'[i], steps, i, rails'[i + 1].pos.coord);
  }

  /** Laying the rail of instruction `k` keeps the invariant when its step
      stays in range, and shows the chain out of range otherwise. */
  lemma ChainStep(steps: seq<(usize, Direction)>, inDir: Direction, start: Coord,
                  k: nat, rails: seq<Rail>, pos: Coord, dir: Direction)
    requires LengthsFit(steps) && k < |steps|
    requires ChainInvariant(steps, inDir, start, k, rails, pos, dir)
    ensures var next := Step(pos, steps[k].1, steps[k].0 + 1);
      && (next.None? ==> !ChainOk(start, steps))
      && (next.Some? ==> ChainInvariant(steps, inDir, start, k + 1,
            rails + [Rail(steps[k].0, Position(pos, steps[k].1), dir)], next.value, Not(steps[k].1)))
  {
    ChainOkUnfold(pos, steps, k);
    var next := Step(pos, steps[k].1, steps[k].0 + 1);
    if next.Some? {
      RailsFollowStep(steps, inDir, start, k, rails, pos, dir, next.value);
      assert EntryDir(InstrDirs(steps), inDir, k + 1) == Not(steps[k].1);
    }
  }

  /** Once every instruction is laid the chain is in range and the rails
      are the connection. */
  lemma ChainDone(steps: seq<(usize, Direction)>, inDir: Direction, start: Coord,
                  rails: seq<Rail>, pos: Coord, dir: Direction)
    requires LengthsFit(steps)
    requires ChainInvariant(steps, inDir, start, |steps|, rails, pos, dir)
    ensures ChainOk(start, steps) && |rails| == |steps|
    ensures forall i :: 0 <= i < |rails| ==> FollowsInstruction(rails[i], steps, inDir, i)
    ensures 0 < |steps| ==> rails[0].pos.coord == start
    ensures forall i :: 0 <= i < |rails| - 1 ==> StepsTo(rails[i], steps, i, rails[i + 1].pos.coord)
  {
    assert steps[|steps|..] == [];
  }

  /** `Rail::connection_by_length`: rail `i` has the given length and
      direction and starts where rail `i - 1` ends plus one cell. Every step
      is taken, including the one after the last rail, and a step leaving
      the coordinate range makes the whole result `None`. */
  method ConnectionByLength(steps: seq<(usize, Direction)>, inDir: Direction, start: Coord)
    returns (r: Option<seq<Rail>>)
    requires LengthsFit(steps)
    ensures r.Some? <==> ChainOk(start, steps)
    ensures r.Some? ==> |r.value| == |steps|
    ensures r.Some? ==> forall i :: 0 <= i < |r.value| ==> FollowsInstruction(r.value[i], steps, inDir, i)
    ensures r.Some? && 0 < |steps| ==> r.value[0].pos.coord == start
    ensures r.Some? ==> forall i :: 0 <= i < |r.value| - 1 ==> StepsTo(r.value[i], steps, i, r.value[i + 1].pos.coord)
  {
    var rails: seq<Rail> := [];
    var pos := start;
    var dir := inDir;
    var k := 0;
    while k < |steps|
      invariant ChainInvariant(steps, inDir, start, k, rails, pos, dir)
      decreases |steps| - k
    {
      var (len, d) := steps[k];
      ChainStep(steps, inDir, start, k, rails, pos, dir);
      var next := Step(pos, d, len + 1);
      if next.None? {
        return None;
      }
      rails := rails + [Rail(len, Position(pos, d), dir)];
      pos := next.value;
      dir := Not(d);
      k := k + 1;
    }
    ChainDone(steps, inDir, start, rails, pos, dir);
    return Some(rails);
  }

  predicate IsDiagonal(d: Direction)
  {
    d in {Northeast, Southeast, Southwest, Northwest}
  }

  /** `Rail::manhattan_distance`, the rail's share of an edge's cost. */
  function RailManhattan(r: Rail): (n: nat)
    ensures r.length + 1 <= n <= 2 * (r.length + 1)
    ensures n == 2 * (r.length + 1) <==> IsDiagonal(r.pos.dir)
  {
    if IsDiagonal(r.pos.dir) then (r.length + 1) * 2 else r.length + 1
  }

  /** The rail's Manhattan cost is the Manhattan distance between the
      rail's start and the cell just past its end. */
  lemma RailManhattanMatchesEndpoints(r: Rail)
    ensures RailManhattan(r) == ManhattanVec(AsVec(r.pos.coord), Along(r.pos.coord, LineDelta(r.pos.dir), r.length + 1))
  {
  }
}
