/** Speed and direction as the Rust crates pass them around (motor/src/lib.rs). */
module Velocity {
  import opened Numbers

  datatype Direction = Forward | Reverse

  datatype SpeedStep = Stop | EmergencyStop | Num(n: u8)

  /** The highest speed step a packet can carry. */
  const TOP_STEP := 126

  function Idx(s: SpeedStep): u8 {
    match s
    case Stop => 0
    case EmergencyStop => 0
    case Num(n) => n
  }

  datatype VelocitySetpoint = VelocitySetpoint(speedStep: SpeedStep, direction: Direction)

  const DEFAULT := VelocitySetpoint(Stop, Forward)

  predicate Equivalent(a: VelocitySetpoint, b: VelocitySetpoint) {
    Idx(a.speedStep) == Idx(b.speedStep) && a.direction == b.direction
  }
}
