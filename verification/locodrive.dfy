/** Conversions between the model's speeds and switch directions and the
    argument types of the LocoNet driver (src/control/rail_system/components/locodrive.rs).
    The driver's own types are mirrored by constructor only. */
module Locodrive {
  import opened Primitives
  import opened Speeds
  import opened Elements

  /** The driver's `SpeedArg`. */
  datatype SpeedArg = ArgStop | ArgEmergencyStop | ArgDrive(step: u8)

  /** The driver's `SwitchDirection`. */
  datatype SwitchDirection = DirStraight | DirCurved

  /** `impl From<SpeedArg> for Speed<u8>`. */
  function SpeedFromArg(a: SpeedArg): (s: Speed)
    ensures s.Drive? <==> a.ArgDrive?
    ensures s.Stop? <==> a.ArgStop?
    ensures s.Drive? ==> s.spd == a.step
  {
    match a
    case ArgStop => Stop
    case ArgEmergencyStop => EmergencyStop
    case ArgDrive(v) => Drive(v)
  }

  /** `impl From<Speed<u8>> for SpeedArg`. */
  function SpeedToArg(s: Speed): (a: SpeedArg)
    ensures a.ArgDrive? <==> s.Drive?
    ensures a.ArgStop? <==> s.Stop?
    ensures a.ArgDrive? ==> a.step == s.spd
  {
    match s
    case Stop => ArgStop
    case EmergencyStop => ArgEmergencyStop
    case Drive(v) => ArgDrive(v)
  }

  /** The two speed conversions are mutually inverse, so each is a
      bijection. */
  lemma SpeedConversionsRoundTrip(s: Speed, a: SpeedArg)
    ensures SpeedFromArg(SpeedToArg(s)) == s
    ensures SpeedToArg(SpeedFromArg(a)) == a
  {
  }

  /** Distinct speeds are sent as distinct driver arguments. */
  lemma SpeedToArgInjective(s: Speed, t: Speed)
    ensures SpeedToArg(s) == SpeedToArg(t) <==> s == t
  {
    SpeedConversionsRoundTrip(s, ArgStop);
    SpeedConversionsRoundTrip(t, ArgStop);
  }

  /** `impl From<SwDir> for SwitchDirection`. */
  function SwitchDirectionOf(d: SwDir): (r: SwitchDirection)
    ensures r == DirStraight <==> d == Straight
  {
    match d
    case Straight => DirStraight
    case Curved => DirCurved
  }

  /** The direction conversion is a bijection and maps opposite directions
      to different values. */
  lemma SwitchDirectionOfBijective(d: SwDir, e: SwDir, r: SwitchDirection)
    ensures SwitchDirectionOf(d) == SwitchDirectionOf(e) <==> d == e
    ensures exists x :: SwitchDirectionOf(x) == r
    ensures SwitchDirectionOf(NotSwDir(d)) != SwitchDirectionOf(d)
  {
    if r == DirStraight {
      assert SwitchDirectionOf(Straight) == r;
    } else {
      assert SwitchDirectionOf(Curved) == r;
    }
  }
}
