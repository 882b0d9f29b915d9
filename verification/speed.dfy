/** Train speeds (`Speed<u8>`), the speed helpers of the `SpeedType` trait
    for `u8`, and the arithmetic and ordering on speeds. */
module Speeds {
  import opened Primitives

  datatype Speed =
    | Stop           // a normal, smooth stop
    | EmergencyStop  // an immediate stop
    | Drive(spd: u8) // drive at the given speed step

  datatype Ordering = Less | Equal | Greater

  /** Position of a speed on the speed axis: an emergency stop is the
      slowest, then a normal stop, then every driving speed by its value.
      This is the independent reference for `Cmp`, `Add` and `Sub`. */
  function Key(s: Speed): int
  {
    match s
    case EmergencyStop => -2
    case Stop => -1
    case Drive(v) => v
  }

  function CompareInt(a: int, b: int): Ordering
  {
    if a < b then Less else if a == b then Equal else Greater
  }

  /** `SpeedType::default_acceleration` for `u8`. */
  function DefaultAcceleration(): (r: u8)
    ensures r == 5
  {
    5
  }

  /** `Speed::default_acceleration`. */
  function DefaultAccelerationSpeed(): (r: Speed)
    ensures r == Drive(5)
  {
    Drive(DefaultAcceleration())
  }

  /** `SpeedType::sub_to_speed(&a, &b)`: `a - b` as a driving speed, or a
      normal stop when the subtraction would underflow. */
  function SubToSpeed(a: u8, b: u8): (r: Speed)
    ensures r.Drive? <==> b <= a
    ensures r.Stop? <==> a < b
    ensures !r.EmergencyStop?
    ensures r.Drive? ==> r.spd + b == a && r.spd <= a
  {
    if b <= a then Drive(a - b) else Stop
  }

  /** `impl Add for Speed`: `x + y`. Rust adds the raw `u8` payloads without a
      check, so the sum must not overflow. */
  function Add(x: Speed, y: Speed): (r: Speed)
    requires x.Drive? && y.Drive? ==> x.spd + y.spd < U8_LIMIT
    ensures y.Stop? || y.EmergencyStop? ==> r == x
    ensures y.Drive? && !x.Drive? ==> r == y
    ensures x.Drive? && y.Drive? ==> r.Drive? && Key(r) == Key(x) + Key(y)
    ensures Key(x) <= Key(r)
  {
    match y
    case Stop => x
    case EmergencyStop => x
    case Drive(b) =>
      match x
      case Stop => Drive(b)
      case EmergencyStop => Drive(b)
      case Drive(a) => Drive(b + a)
  }

  /** `impl Sub for Speed` as written: for two driving speeds it evaluates
      `rhs.sub_to_speed(lhs)`, so the operands are swapped. */
  function Sub(x: Speed, y: Speed): (r: Speed)
    ensures y.Stop? || y.EmergencyStop? ==> r == x
    ensures y.Drive? && x.Stop? ==> r == Stop
    ensures y.Drive? && x.EmergencyStop? ==> r == EmergencyStop
    ensures x.Drive? && y.Drive? ==> (r.Drive? <==> x.spd <= y.spd)
    ensures x.Drive? && y.Drive? && r.Drive? ==> Key(r) == Key(y) - Key(x)
  {
    match y
    case Stop => x
    case EmergencyStop => x
    case Drive(b) =>
      match x
      case Stop => Stop
      case EmergencyStop => EmergencyStop
      case Drive(a) => SubToSpeed(b, a)
  }

  /** The subtraction with the operands in the intended order:
      `Drive(a) - Drive(b)` is `a.sub_to_speed(b)`. */
  function SubCorrected(x: Speed, y: Speed): (r: Speed)
    ensures y.Stop? || y.EmergencyStop? ==> r == x
    ensures !x.Drive? ==> r == x
    ensures Key(r) <= Key(x)
    ensures x.Drive? && y.Drive? && y.spd <= x.spd ==> Key(r) + Key(y) == Key(x)
    ensures x.Drive? && y.Drive? && x.spd < y.spd ==> r == Stop
  {
    match y
    case Stop => x
    case EmergencyStop => x
    case Drive(b) =>
      match x
      case Stop => Stop
      case EmergencyStop => EmergencyStop
      case Drive(a) => SubToSpeed(a, b)
  }

  /** The swapped operands make a subtraction speed a train up and, the
      other way round, drop a fast train straight to `Stop`. */
  lemma SubReversedWitness()
    ensures Sub(Drive(3), Drive(10)) == Drive(7)
    ensures Key(Sub(Drive(3), Drive(10))) > Key(Drive(3))
    ensures Sub(Drive(10), Drive(3)) == Stop
    ensures SubCorrected(Drive(10), Drive(3)) == Drive(7)
  {
  }

  /** The written and the intended subtraction of two driving speeds agree
      only when both payloads are equal. */
  lemma SubAgreesOnlyOnEqualPayloads(a: u8, b: u8)
    ensures Sub(Drive(a), Drive(b)) == SubCorrected(Drive(a), Drive(b)) <==> a == b
  {
    if a < b {
      assert SubCorrected(Drive(a), Drive(b)) == Stop;
      assert Sub(Drive(a), Drive(b)).Drive?;
    } else if b < a {
      assert Sub(Drive(a), Drive(b)) == Stop;
      assert SubCorrected(Drive(a), Drive(b)).Drive?;
    }
  }

  /** `impl Ord for Speed`: `EmergencyStop < Stop < Drive(_)`, driving speeds
      compared by value. */
  function Cmp(x: Speed, y: Speed): (r: Ordering)
    ensures r == CompareInt(Key(x), Key(y))
  {
    if x == y then Equal
    else match x
      case Stop => if y == EmergencyStop then Greater else Less
      case EmergencyStop => Less
      case Drive(a) => if y.Drive? then CompareInt(a, y.spd) else Greater
  }

  predicate Le(x: Speed, y: Speed)
  {
    Cmp(x, y) != Greater
  }

  /** `Cmp` is a total order whose equality is speed equality. */
  lemma CmpTotalOrder(x: Speed, y: Speed, z: Speed)
    ensures Cmp(x, y) == Equal <==> x == y
    ensures Cmp(x, y) == Less <==> Cmp(y, x) == Greater
    ensures Le(x, y) || Le(y, x)
    ensures Le(x, y) && Le(y, x) ==> x == y
    ensures Le(x, y) && Le(y, z) ==> Le(x, z)
  {
    if Cmp(x, y) == Equal {
      assert Key(x) == Key(y);
    }
  }
}
