/**
 `food::startup`: the initial food supply.

 Food item k is seeded with the k-th seed of its own driver stream, seeded
 from the master seed, and draws its health (unless the range is fixed) and
 then a position anywhere in the world. The food bundle has no velocity.
 */
module Food {
  import opened Entities
  import opened Config
  import opened Rng
  import Movement

  /** What spawning one food item needs: a usable health range and a non-empty world. */
  predicate CanSpawn(food: FoodArgs, width: real, height: real)
  {
    ValidHealthRange(food.initMin, food.initMax) && width > 0.0 && height > 0.0
  }

  /** One food item, generated entirely from its private seed. */
  function SpawnFood(o: Oracle, seed: Seed, food: FoodArgs, width: real, height: real): (e: Entity)
    requires WellBehaved(o)
    requires CanSpawn(food, width, height)
    ensures e.kind == Entities.Food && e.velocity.None?
    ensures -width / 2.0 <= e.pos.x < width / 2.0 && -height / 2.0 <= e.pos.y < height / 2.0
    ensures IsFixedRange(food.initMin, food.initMax) ==> e.health == food.initMax
    ensures !IsFixedRange(food.initMin, food.initMax) ==> food.initMin <= e.health < food.initMax
  {
    var s0 := FromSeed(seed);
    var (hp, s1) := InitHealth(o, s0, food.initMin, food.initMax);
    var (x, s2) := GenRange(o, s1, -width / 2.0, width / 2.0);
    var (y, _) := GenRange(o, s2, -height / 2.0, height / 2.0);
    Entity(Entities.Food, None, Vec2(x, y), hp)
  }

  /** The first `n` food items: item k is determined by the k-th driver seed alone. */
  function SpawnFoods(o: Oracle, master: u64, n: nat, food: FoodArgs, width: real, height: real)
    : (fs: seq<Entity>)
    requires WellBehaved(o)
    requires n > 0 ==> CanSpawn(food, width, height)
    ensures |fs| == n
    ensures forall k :: 0 <= k < n ==> fs[k] == SpawnFood(o, o.driver(master, k), food, width, height)
    decreases n
  {
    if n == 0 then []
    else SpawnFoods(o, master, n - 1, food, width, height)
         + [SpawnFood(o, o.driver(master, n - 1), food, width, height)]
  }

  /** `food::startup`: exactly `args.food.count` stationary food items spread over the world. */
  function Startup(o: Oracle, args: Args, width: real, height: real): (fs: seq<Entity>)
    requires WellBehaved(o)
    requires args.food.count > 0 ==> CanSpawn(args.food, width, height)
    ensures |fs| == args.food.count
    ensures forall e :: e in fs ==>
              && e.kind == Entities.Food && e.velocity.None?
              && -width / 2.0 <= e.pos.x < width / 2.0 && -height / 2.0 <= e.pos.y < height / 2.0
    ensures forall e :: e in fs && IsFixedRange(args.food.initMin, args.food.initMax) ==>
              e.health == args.food.initMax
    ensures forall e :: e in fs && !IsFixedRange(args.food.initMin, args.food.initMax) ==>
              args.food.initMin <= e.health < args.food.initMax
  {
    SpawnFoods(o, args.seed, args.food.count, args.food, width, height)
  }

  /** Asking for less food leaves the items still asked for exactly as they were. */
  lemma StartupPrefixStable(o: Oracle, args: Args, n: u32, width: real, height: real)
    requires WellBehaved(o)
    requires args.food.count > 0 ==> CanSpawn(args.food, width, height)
    requires n <= args.food.count
    ensures Startup(o, args.(food := args.food.(count := n)), width, height)
            == Startup(o, args, width, height)[..n]
  {
  }

  /** The food supply does not depend on the critter configuration. */
  lemma StartupIgnoresCritters(o: Oracle, args: Args, critters: u32, health: HealthArgs, width: real, height: real)
    requires WellBehaved(o)
    requires args.food.count > 0 ==> CanSpawn(args.food, width, height)
    ensures Startup(o, args.(critters := critters, health := health), width, height)
            == Startup(o, args, width, height)
  {
  }

  /** Food has no velocity, so `move_all` neither wraps nor decays it, whatever the tick. */
  lemma FoodIsStationary(o: Oracle, args: Args, width: real, height: real, dt: real, perVel: real)
    requires WellBehaved(o)
    requires args.food.count > 0 ==> CanSpawn(args.food, width, height)
    ensures forall e :: e in Startup(o, args, width, height) ==>
              Movement.MoveEntity(e, width, height, dt, perVel) == e
  {
  }
}
