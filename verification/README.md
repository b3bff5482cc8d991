# sim: entity bookkeeping of a small artificial-life simulation, in Dafny

This project models the simulation core of `sim`, a Bevy and rapier
artificial-life toy. Critters wander a wrap-around plane and lose health in
proportion to their speed. They eat food on contact and die when their health
runs out. The model covers the three per-tick systems of `sim/src/main.rs` and
the two seeded startup systems:

- `move_all` applies the toroidal wrap and the speed-proportional health decay.
- `eat_food_particle` moves health from food to critters over a batch of collision events.
- `no_food_means_dead` is the mortality sweep.
- `critters::startup` and `food::startup` generate the population from the master seed.

The model is written as pure functions over an entity store
(`map<Id, Entity>`). Each entity record holds:

- its `EntityType` tag;
- an optional velocity, which only critters have;
- its position;
- its `Health`.

`f32` is modelled as `real`. The caller sequences the three systems. Module
layout:

| file | module | models |
|---|---|---|
| entities.dfy | `Entities` | `EntityType`, `Health`, `Velocity`, the store, total health, spawning into the store |
| config.dfy | `Config` | the parsed `Args` record |
| rng.dfy | `Rng` | the driver seed fan-out, `gen_range`, the shared initial-health rule |
| movement.dfy | `Movement` | `move_all` |
| feeding.dfy | `Feeding` | `eat_food_particle` |
| mortality.dfy | `Mortality` | `no_food_means_dead` |
| critters.dfy | `Critters` | `critters::startup` |
| food.dfy | `Food` | `food::startup` |
| simulation.dfy | `Simulation` | the startup systems registered together; one tick end to end |

## How the randomness is modelled

`SmallRng` is abstract. An `Oracle` value supplies three functions:

- `driver(master, k)` is the k-th seed produced by a driver seeded from the master seed.
- `genRange(seed, n, lo, hi)` is the value of the n-th `gen_range(lo..hi)` drawn from a private stream seeded with `seed`.
- `polar(a)` is `(cos a, sin a)`.

The model assumes only `lo <= value < hi` for each draw (`WellBehaved`).
`polar` returns a `Direction`, the subset type of unit vectors, so a
heading is a unit vector by construction. Each entity draws its values in a fixed
order. So "seed plus number of values drawn" identifies the state of its
stream. This is why the fixed-range health rule observably draws nothing:
the heading becomes draw 0 instead of draw 1.

A velocity is held as a unit direction times a magnitude, which is how
`critters::startup` builds it. Its length is the magnitude's absolute value.
Because the direction is a `Direction`, `Entities.LengthIsEuclidean` proves
for every velocity that this is the Euclidean length of the Cartesian vector.

## Behaviour of the source worth knowing

- `move_all` (sim/src/main.rs:77-90) wraps positions and charges decay; it also sets the sprite's rotation (sim/src/main.rs:74-75, see "Left out"). It does not integrate positions: the update `position += velocity * dt` is done by rapier's kinematic bodies. `MoveAll` therefore takes post-integration positions.
- The `Food` bundle (sim/src/food.rs:11-20) has no `Velocity` component at all, not even a zero one. `move_all` queries `&Velocity` (sim/src/main.rs:59), so it never visits food.
- Both startup systems call `SmallRng::seed_from_u64(args.seed)` (sim/src/critters.rs:37, sim/src/food.rs:28). So critter k and food item k share one private seed, and their streams are not independent (`Simulation.CritterAndFoodShareStream`).
- The fixed-value rule applies when `|max - min| < 0.01` and assigns `max` (sim/src/critters.rs:51-52, sim/src/food.rs:42-43).
- `no_food_means_dead` is registered in the default `Update` stage and `eat_food_particle` in `PostUpdate` (sim/src/main.rs:35-37). So food emptied in one frame is despawned by the sweep of the next frame. `Simulation.FeedingScenario` composes eat, then the following sweep.
- The sweep's filter is `health <= 0.0` (sim/src/main.rs:97): zero health is dead.

## Model

| member | source | states |
|---|---|---|
| `Entities.LengthIsEuclidean` | sim/src/critters.rs:57-60 | for every velocity, built as a unit heading times a speed, the speed used for decay is non-negative and its square is `vx² + vy²` of the linear velocity, so it is `vel.length()` |
| `Entities.SpawnAll` | sim/src/critters.rs:47 | spawning bundles gives each one a fresh id in order, and every earlier entity is kept unchanged |
| `Rng.GenRange` | sim/src/critters.rs:54 | a `gen_range(lo..hi)` draw lies in `[lo, hi)` and uses up exactly one value of the same stream |
| `Rng.InitHealth` | sim/src/critters.rs:50-56 | when `|max - min| < 0.01` the health is exactly `max` and the stream is untouched; otherwise it lies in `[min, max)` and uses one draw |
| `Movement.WrapAxis` | sim/src/main.rs:77-86 | the coordinate moves by at most one world extent: `x - w` above `w/2`, `x + w` below `-w/2`, unchanged in between |
| `Movement.WrapAxisBounds` | sim/src/main.rs:77-86 | a coordinate in `[-3w/2, 3w/2]` ends up in `[-w/2, w/2]` |
| `Movement.WrapAxisInBounds` | sim/src/main.rs:77-81 | a coordinate already in `[-w/2, w/2]` is not moved |
| `Movement.WrapAxisIdempotent` | sim/src/main.rs:77-81 | for coordinates within one wrap, wrapping twice equals wrapping once |
| `Movement.WrapAxisIsTorusRepresentative` | sim/src/main.rs:77-86 | if shifting by `k` extents (k in -1, 0, 1) lands strictly inside the bounds, the wrap returns exactly that point |
| `Movement.Decay` | sim/src/main.rs:88-90 | the health lost is exactly `|v| * dt * per_vel`; with non-negative speed, `dt` and cost, health never rises; and `dt = 0` leaves it unchanged |
| `Movement.MoveEntity` | sim/src/main.rs:67-91 | an entity without a velocity is untouched; one with a velocity keeps its tag and velocity, has both axes wrapped, and pays decay on `|v|` |
| `Movement.MoveAll` | sim/src/main.rs:55-92 | the same ids stay in the store and no tag or velocity changes; only entities with a velocity are wrapped and decayed |
| `Movement.MoveAllBounds` | sim/src/main.rs:77-86 | when every moving entity is within one wrap of the world, all of them end the tick inside it |
| `Movement.MoveAllNeverHeals` | sim/src/main.rs:88-90 | with `dt >= 0` and `per_vel >= 0`, no entity's health rises |
| `Movement.MoveAllIdleTick` | sim/src/main.rs:55-92 | a zero-length tick, with every moving entity in bounds, leaves the store unchanged |
| `Movement.MoveAllTotalHealthNeverRises` | sim/src/main.rs:88-90 | summed over the store, a tick never raises health |
| `Feeding.IsMeal` | sim/src/main.rs:107-109 | an event is a meal exactly when it is a `Started` contact between two distinct live entities, one a critter and the other food, in either order |
| `Feeding.Transfer` | sim/src/main.rs:112 | the critter's health becomes `critter + food`, the food's becomes `0`, the pair's sum is kept, and every other entity and field is unchanged |
| `Feeding.Eater` | sim/src/main.rs:108-109 | the critter of a critter/food pair is one of the two event ids |
| `Feeding.Meal` | sim/src/main.rs:108-109 | the food of a critter/food pair is the other event id |
| `Feeding.EatOne` | sim/src/main.rs:106-118 | a `Started` critter/food pair in either order gives `critter + food` to the critter and `0` to the food, and every other entity is unchanged; any other event leaves the store unchanged; ids, tags, velocities and positions are always kept |
| `Feeding.Eat` | sim/src/main.rs:101-120 | a batch never adds or removes ids and never changes a tag, velocity or position |
| `Feeding.IgnoredEventsAreNoOps` | sim/src/main.rs:114-117 | `Stopped`, a missing id, `a == b`, and critter+critter or food+food all leave the store unchanged |
| `Feeding.MealConservesPair` | sim/src/main.rs:107-113 | both orders of the pair give the same result, and the pair's combined health is unchanged |
| `Feeding.EatOneConservesHealth` | sim/src/main.rs:107-113 | one event never changes the store's total health |
| `Feeding.EatConservesHealth` | sim/src/main.rs:105-119 | a whole batch never changes the store's total health |
| `Feeding.EatOneIdempotent` | sim/src/main.rs:107-113 | applying the same event twice equals applying it once |
| `Feeding.DuplicateReportFeedsOnce` | sim/src/main.rs:105-119 | a contact report for a critter/food pair followed by a repeat, each listing the pair in either order, feeds the critter the food's original health once and leaves the food at 0 |
| `Feeding.EatAppend` | sim/src/main.rs:105 | resolving a batch in two parts, one after the other, equals resolving it in one go |
| `Feeding.EmptyMealIsNoOp` | sim/src/main.rs:107-113 | a meal whose food already holds `0` changes nothing |
| `Feeding.EmptyFoodStaysEmpty` | sim/src/main.rs:105-119 | food at `0` stays at `0` through any batch, since only critters are ever credited |
| `Feeding.EatenFoodStaysEmpty` | sim/src/main.rs:105-119 | once a critter has eaten a food item, through a report listing the pair in either order, that item holds `0` for the rest of the batch |
| `Feeding.EmptyMealInBatchIsNoOp` | sim/src/main.rs:105-119 | dropping a meal whose food is empty when it is reached leaves the batch's result unchanged |
| `Feeding.DuplicateReportAnywhereFeedsOnce` | sim/src/main.rs:105-119 | a later repeat of a critter/food contact anywhere in the batch, with the eating report and the repeat each listing the pair in either order, leaves the batch's result unchanged, so the food is eaten once |
| `Feeding.EatFeedsCritters` | sim/src/main.rs:105-119 | if all food health is non-negative, it stays so; no critter loses health; each food item keeps its health or drops to 0 |
| `Mortality.Sweep` | sim/src/main.rs:94-99 | an entity survives if and only if its health is `> 0`, and survivors are unchanged |
| `Mortality.SweepRemovesExactlyTheDead` | sim/src/main.rs:94-98 | the result is the store minus the set of ids with `health <= 0`, and every survivor is alive |
| `Mortality.SweepBoundary` | sim/src/main.rs:97 | health exactly `0` is removed; health `0.0001` survives |
| `Mortality.SweepIdempotent` | sim/src/main.rs:94-98 | sweeping twice equals sweeping once |
| `Mortality.SweepKeepsTheLiving` | sim/src/main.rs:97 | a store whose entities all have positive health is left unchanged |
| `Critters.SpawnCritter` | sim/src/critters.rs:46-66 | a critter is tagged `Critter`, has a heading and speed in `[10, 100)`, starts in `[-w/4, w/4) × [-h/4, h/4)`, and follows the health rule |
| `Critters.SpawnCritters` | sim/src/critters.rs:37-46 | exactly `n` critters are made, and critter k is generated from the k-th driver seed alone |
| `Critters.Startup` | sim/src/critters.rs:45-66 | exactly `args.critters` moving critters are made, each within the speed and placement ranges and following the health rule |
| `Critters.StartupPrefixStable` | sim/src/critters.rs:37-46 | asking for `n` critters gives the first `n` of a larger request, unchanged |
| `Critters.FixedHealthDrawsNothing` | sim/src/critters.rs:50-58 | with a fixed health range the heading is draw 0 of the critter's stream; otherwise it is draw 1 |
| `Critters.CrittersStartInsideWorld` | sim/src/critters.rs:62-66 | every critter starts strictly inside the wrap bounds, so a zero-length `move_all` leaves it unchanged |
| `Food.SpawnFood` | sim/src/food.rs:37-52 | a food item is tagged `Food`, has no velocity, lies in `[-w/2, w/2) × [-h/2, h/2)`, and follows the health rule |
| `Food.SpawnFoods` | sim/src/food.rs:28-37 | exactly `n` items are made, and item k is generated from the k-th driver seed alone |
| `Food.Startup` | sim/src/food.rs:36-52 | exactly `args.food.count` stationary items are made, each in the world and following the health rule |
| `Food.StartupPrefixStable` | sim/src/food.rs:28-37 | asking for `n` items gives the first `n` of a larger request, unchanged |
| `Food.StartupIgnoresCritters` | sim/src/food.rs:28-37 | the food supply is the same whatever the critter count and critter health settings |
| `Food.FoodIsStationary` | sim/src/food.rs:11-20 | food has no velocity, so `move_all` neither wraps nor decays it, for any `dt` |
| `Simulation.Populate` | sim/src/main.rs:32-33 | after both startup systems, in the model's id layout (see "Left out"), ids `0 .. critters` hold moving critters inside the bounds and the following `food.count` ids hold stationary food |
| `Simulation.Register` | sim/src/food.rs:39 | registering critters and then food gives each generated entity its own id, in order |
| `Simulation.PopulationAtRest` | sim/src/critters.rs:62-66 | a freshly populated world is unchanged by a zero-length `move_all` |
| `Simulation.CritterAndFoodShareStream` | sim/src/food.rs:28-37 | critter k and food k share a private seed, so with equal health ranges they start with equal health |
| `Simulation.FeedingScenario` | sim/src/main.rs:94-119 | a zero-length tick followed by a critter/food contact gives the critter `critter + food` and the food 0; the next sweep despawns the food and keeps the critter |

## Left out

- `sim/src/tools.rs`: procedural sprite textures. They are rendering only.
- `sim/src/args.rs`: clap parsing. `Args` is an immutable record, and `seed` is taken as already resolved. Filling it from `raw_seed` or `rand::random` (main.rs:18-21) is I/O.
- `exit_on_escape_key` and the camera `startup` are input and display only.
- The rotation `atan2(vy, vx)` in `move_all` is display only and needs floating-point trigonometry.
- The primary window is a parameter (`width`, `height`). The `unwrap` on a missing window is not modelled.
- Bevy scheduling, deferred `Commands` and the `Update`/`PostUpdate` stages are not modelled. The three systems are separate functions, and the caller sequences them.
- Rapier collision detection and its kinematic position integration are external. Collision events arrive as a list, and their flags are dropped.
- `SmallRng`'s algorithm and the bits of each draw are abstracted as explained above.
- `f32` rounding, NaN and infinities are not modelled: with `real`, `!(health <= 0.0)` is the same as `health > 0.0`.
- Hue and lightness draws and sprite sizes are visual only. The colour draws come last in each entity's sequence, so leaving them out shifts no modelled draw.
- The collider radii (`Collider::ball(10.0)` at sim/src/critters.rs:75, `Collider::ball(2.5)` at sim/src/food.rs:61) feed rapier's collision detection, which is external. The model takes the resulting events as input.
- `Health` is mandatory in the record because every critter and food entity has it; the camera entity has none and is not in the store. So `move_all`'s `if let Some(health)` always takes the `Some` branch.
- The id layout is a modelling choice: critters take ids `0 .. critters` and food the ids after them. The two startup systems are unordered, the camera `startup` also spawns an entity, and Bevy's `Entity` ids are opaque. Only the distinctness and stability of ids is meant, not their values.
- `FoodArgs.perSec` is parsed but no system reads it.
- Panics are not modelled as errors. Generation requires a valid health range and a positive world size, but only when something is spawned. These are exactly the cases where `gen_range` would panic on an empty range.
