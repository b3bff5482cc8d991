/**
 The resolved command-line configuration, an immutable record handed to
 every system. `seed` is the master seed after `raw_seed` has been filled
 in; `perSec` is parsed but read by none of the modelled systems.
 */
module Config {

  /** Rust's `u32` and `u64`, as ranges of mathematical integers. */
  type u32 = x: int | 0 <= x < 0x1_0000_0000
  type u64 = x: int | 0 <= x < 0x1_0000_0000_0000_0000

  datatype HealthArgs = HealthArgs(initMin: real, initMax: real, perVel: real)

  datatype FoodArgs = FoodArgs(initMin: real, initMax: real, count: u32, perSec: u32)

  datatype Args = Args(seed: u64, critters: u32, health: HealthArgs, food: FoodArgs)
}
