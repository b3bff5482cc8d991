/**
 `critters::startup`: the initial critter population.

 Critter k is seeded with the k-th seed of a driver stream seeded from the
 master seed, and draws, from its own stream and in this order: its health
 (unless the range is fixed), a heading in `[0, TAU)`, a speed in
 `[10, 100)`, and a position in the middle half of the world on each axis.
 */
module Critters {
  import opened Entities
  import opened Config
  import opened Rng
  import Movement

  const MinSpeed: real := 10.0
  const MaxSpeed: real := 100.0

  /** `std::f32::consts::TAU` */
  const Tau: real := 6.2831855

  /** What spawning one critter needs: a usable health range and a non-empty world. */
  predicate CanSpawn(health: HealthArgs, width: real, height: real)
  {
    ValidHealthRange(health.initMin, health.initMax) && width > 0.0 && height > 0.0
  }

  /** One critter, generated entirely from its private seed. */
  function SpawnCritter(o: Oracle, seed: Seed, health: HealthArgs, width: real, height: real): (e: Entity)
    requires WellBehaved(o)
    requires CanSpawn(health, width, height)
    ensures e.kind == Critter && e.velocity.Some?
    ensures MinSpeed <= e.velocity.value.Length() < MaxSpeed
    ensures -width / 4.0 <= e.pos.x < width / 4.0 && -height / 4.0 <= e.pos.y < height / 4.0
    ensures IsFixedRange(health.initMin, health.initMax) ==> e.health == health.initMax
    ensures !IsFixedRange(health.initMin, health.initMax) ==> health.initMin <= e.health < health.initMax
  {
    var s0 := FromSeed(seed);
    var (hp, s1) := InitHealth(o, s0, health.initMin, health.initMax);
    var (angle, s2) := GenRange(o, s1, 0.0, Tau);
    var (speed, s3) := GenRange(o, s2, MinSpeed, MaxSpeed);
    var (x, s4) := GenRange(o, s3, -width / 4.0, width / 4.0);
    var (y, _) := GenRange(o, s4, -height / 4.0, height / 4.0);
    Entity(Critter, Some(Velocity(o.polar(angle), speed)), Vec2(x, y), hp)
  }

  /** The first `n` critters: critter k is determined by the k-th driver seed alone. */
  function SpawnCritters(o: Oracle, master: u64, n: nat, health: HealthArgs, width: real, height: real)
    : (cs: seq<Entity>)
    requires WellBehaved(o)
    requires n > 0 ==> CanSpawn(health, width, height)
    ensures |cs| == n
    ensures forall k :: 0 <= k < n ==> cs[k] == SpawnCritter(o, o.driver(master, k), health, width, height)
    decreases n
  {
    if n == 0 then []
    else SpawnCritters(o, master, n - 1, health, width, height)
         + [SpawnCritter(o, o.driver(master, n - 1), health, width, height)]
  }

  /** `critters::startup`: exactly `args.critters` moving critters, all placed inside the world. */
  function Startup(o: Oracle, args: Args, width: real, height: real): (cs: seq<Entity>)
    requires WellBehaved(o)
    requires args.critters > 0 ==> CanSpawn(args.health, width, height)
    ensures |cs| == args.critters
    ensures forall e :: e in cs ==>
              && e.kind == Critter && e.velocity.Some?
              && MinSpeed <= e.velocity.value.Length() < MaxSpeed
              && -width / 4.0 <= e.pos.x < width / 4.0 && -height / 4.0 <= e.pos.y < height / 4.0
    ensures forall e :: e in cs && IsFixedRange(args.health.initMin, args.health.initMax) ==>
              e.health == args.health.initMax
    ensures forall e :: e in cs && !IsFixedRange(args.health.initMin, args.health.initMax) ==>
              args.health.initMin <= e.health < args.health.initMax
  {
    SpawnCritters(o, args.seed, args.critters, args.health, width, height)
  }

  /** Asking for fewer critters leaves the ones still asked for exactly as they were. */
  lemma StartupPrefixStable(o: Oracle, args: Args, n: u32, width: real, height: real)
    requires WellBehaved(o)
    requires args.critters > 0 ==> CanSpawn(args.health, width, height)
    requires n <= args.critters
    ensures Startup(o, args.(critters := n), width, height) == Startup(o, args, width, height)[..n]
  {
  }

  /**
   A fixed health range draws nothing: the heading is then the first draw of
   the critter's stream, and otherwise the second.
   */
  lemma FixedHealthDrawsNothing(o: Oracle, args: Args, width: real, height: real, k: nat)
    requires WellBehaved(o)
    requires args.critters > 0 ==> CanSpawn(args.health, width, height)
    requires k < args.critters
    ensures var seed := o.driver(args.seed, k);
            var heading := Startup(o, args, width, height)[k].velocity.value.dir;
            && (IsFixedRange(args.health.initMin, args.health.initMax) ==>
                  heading == o.polar(o.genRange(seed, 0, 0.0, Tau)))
            && (!IsFixedRange(args.health.initMin, args.health.initMax) ==>
                  heading == o.polar(o.genRange(seed, 1, 0.0, Tau)))
  {
  }

  /** Every critter starts strictly inside the wrap bounds, so a zero-length tick does not move it. */
  lemma CrittersStartInsideWorld(o: Oracle, args: Args, width: real, height: real, perVel: real)
    requires WellBehaved(o)
    requires args.critters > 0 ==> CanSpawn(args.health, width, height)
    ensures forall e :: e in Startup(o, args, width, height) ==>
              && -width / 2.0 < e.pos.x < width / 2.0 && -height / 2.0 < e.pos.y < height / 2.0
              && Movement.MoveEntity(e, width, height, 0.0, perVel) == e
  {
    forall e | e in Startup(o, args, width, height)
      ensures Movement.MoveEntity(e, width, height, 0.0, perVel) == e
    {
      Movement.WrapAxisInBounds(e.pos.x, width);
      Movement.WrapAxisInBounds(e.pos.y, height);
    }
  }
}
