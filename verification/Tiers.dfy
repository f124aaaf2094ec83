/** Storage tiers and their scan physics (memory_model.hpp, tier_model.hpp, cost_model.hpp). */
module Tiers {
  datatype Tier = HOST | DEVICE | COLD

  /** Sequential scan bandwidth in bytes per microsecond. */
  function Rate(t: Tier): (r: real)
    ensures r > 0.0
  {
    match t
    case DEVICE => 240000.0
    case HOST => 10000.0
    case COLD => 3000.0
  }

  const LAUNCH_US: real := 30.0

  /** Predicted time to scan `bytes` in a tier. */
  function ScanUs(t: Tier, bytes: nat): real {
    (if t == DEVICE then LAUNCH_US else 0.0) + bytes as real / Rate(t)
  }

  /** Predicted time to move `bytes` between tiers of a discrete machine. */
  function MigrationUs(from: Tier, to: Tier, bytes: nat): real {
    if from == to then 0.0
    else bytes as real / (if Rate(from) < Rate(to) then Rate(from) else Rate(to))
  }

  function Faster(t: Tier): Tier {
    if t == COLD then HOST else DEVICE
  }

  function Slower(t: Tier): Tier {
    if t == DEVICE then HOST else COLD
  }

  predicate Adjacent(a: Tier, b: Tier) {
    a != b && (a == HOST || b == HOST)
  }
}
