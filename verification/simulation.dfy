/**
 The systems put together: registering the generated population in the
 store, and one tick of wrap and decay, eating, and the mortality sweep.
 */
module Simulation {
  import opened Entities
  import opened Config
  import opened Rng
  import Critters
  import Food
  import opened Movement
  import opened Feeding
  import opened Mortality

  /**
   The store after both startup systems: critters under ids `0 ..
   critters`, then food under the following ids.
   */
  function Populate(o: Oracle, args: Args, width: real, height: real): (s: Store)
    requires WellBehaved(o)
    requires args.critters > 0 ==> Critters.CanSpawn(args.health, width, height)
    requires args.food.count > 0 ==> Food.CanSpawn(args.food, width, height)
    ensures forall id: Id :: id in s <==> id < args.critters + args.food.count
    ensures forall id: Id :: id in s && id < args.critters ==>
              s[id].kind == Critter && s[id].velocity.Some? && InBounds(s[id].pos, width, height)
    ensures forall id: Id :: id in s && id >= args.critters ==>
              s[id].kind == Entities.Food && s[id].velocity.None?
  {
    Register(Critters.Startup(o, args, width, height), Food.Startup(o, args, width, height), width, height)
  }

  /**
   Registering generated critters from id 0 and then generated food after
   them: critter ids come first and hold in-bounds moving critters, the rest
   hold stationary food.
   */
  function Register(cs: seq<Entity>, fs: seq<Entity>, width: real, height: real): (s: Store)
    requires forall e :: e in cs ==>
               && e.kind == Critter && e.velocity.Some?
               && -width / 4.0 <= e.pos.x < width / 4.0 && -height / 4.0 <= e.pos.y < height / 4.0
    requires forall e :: e in fs ==> e.kind == Entities.Food && e.velocity.None?
    ensures forall id: Id :: id in s <==> id < |cs| + |fs|
    ensures forall id: Id :: id in s && id < |cs| ==> s[id] == cs[id]
    ensures forall id: Id :: id in s && id >= |cs| ==> s[id] == fs[id - |cs|]
    ensures forall id: Id :: id in s && id < |cs| ==>
              s[id].kind == Critter && s[id].velocity.Some? && InBounds(s[id].pos, width, height)
    ensures forall id: Id :: id in s && id >= |cs| ==> s[id].kind == Entities.Food && s[id].velocity.None?
  {
    var empty: Store := map[];
    var s := SpawnAll(SpawnAll(empty, cs, 0), fs, |cs|);
    RegisterFacts(cs, fs, s, width, height);
    s
  }

  /** The proof of `Register`'s contract, one id range at a time. */
  lemma RegisterFacts(cs: seq<Entity>, fs: seq<Entity>, s: Store, width: real, height: real)
    requires forall e :: e in cs ==>
               && e.kind == Critter && e.velocity.Some?
               && -width / 4.0 <= e.pos.x < width / 4.0 && -height / 4.0 <= e.pos.y < height / 4.0
    requires forall e :: e in fs ==> e.kind == Entities.Food && e.velocity.None?
    requires s == SpawnAll(SpawnAll(map[], cs, 0), fs, |cs|)
    ensures forall id: Id :: id in s <==> id < |cs| + |fs|
    ensures forall id: Id :: id in s && id < |cs| ==> s[id] == cs[id]
    ensures forall id: Id :: id in s && id >= |cs| ==> s[id] == fs[id - |cs|]
    ensures forall id: Id :: id in s && id < |cs| ==>
              s[id].kind == Critter && s[id].velocity.Some? && InBounds(s[id].pos, width, height)
    ensures forall id: Id :: id in s && id >= |cs| ==> s[id].kind == Entities.Food && s[id].velocity.None?
  {
    var critters := SpawnAll(map[], cs, 0);
    forall id: Id | id < |cs|
      ensures id in s && s[id] == cs[id]
      ensures s[id].kind == Critter && s[id].velocity.Some? && InBounds(s[id].pos, width, height)
    {
      assert critters[0 + id] == cs[id];
      assert cs[id] in cs;
    }
    forall id: Id | |cs| <= id < |cs| + |fs|
      ensures id in s && s[id] == fs[id - |cs|]
      ensures s[id].kind == Entities.Food && s[id].velocity.None?
    {
      assert s[|cs| + (id - |cs|)] == fs[id - |cs|];
      assert fs[id - |cs|] in fs;
    }
  }

  /** Nothing in a freshly populated world moves or decays on a zero-length tick. */
  lemma PopulationAtRest(o: Oracle, args: Args, width: real, height: real, perVel: real)
    requires WellBehaved(o)
    requires args.critters > 0 ==> Critters.CanSpawn(args.health, width, height)
    requires args.food.count > 0 ==> Food.CanSpawn(args.food, width, height)
    ensures MoveAll(Populate(o, args, width, height), width, height, 0.0, perVel)
            == Populate(o, args, width, height)
  {
    MoveAllIdleTick(Populate(o, args, width, height), width, height, perVel);
  }

  /**
   Both startup systems seed their driver from the same master seed, so
   critter k and food item k share a private stream: with equal health
   ranges they start with equal health.
   */
  lemma CritterAndFoodShareStream(o: Oracle, args: Args, width: real, height: real, k: nat)
    requires WellBehaved(o)
    requires Critters.CanSpawn(args.health, width, height)
    requires Food.CanSpawn(args.food, width, height)
    requires k < args.critters && k < args.food.count
    requires args.health.initMin == args.food.initMin && args.health.initMax == args.food.initMax
    ensures Critters.Startup(o, args, width, height)[k].health == Food.Startup(o, args, width, height)[k].health
  {
  }

  /**
   A critter meeting a food item on a zero-length tick: the critter gains the
   food's whole health, the emptied food is despawned by the next sweep, and
   the fed critter survives it.
   */
  lemma FeedingScenario(c: Id, f: Id, critter: Entity, food: Entity, width: real, height: real, perVel: real)
    requires c != f
    requires critter.kind == Critter && critter.velocity.Some? && InBounds(critter.pos, width, height)
    requires food.kind == Entities.Food && food.velocity.None?
    requires critter.health > 0.0 && food.health >= 0.0
    ensures var s := map[c := critter, f := food];
            var fed := Eat(MoveAll(s, width, height, 0.0, perVel), [Started(c, f)]);
            var swept := Sweep(fed);
            && fed[c].health == critter.health + food.health
            && fed[f].health == 0.0
            && c in swept && f !in swept
            && swept[c].health == critter.health + food.health
  {
    var s := map[c := critter, f := food];
    MoveAllIdleTick(s, width, height, perVel);
    assert Eat(s, [Started(c, f)]) == Eat(EatOne(s, Started(c, f)), []);
    assert IsMeal(s, Started(c, f));
  }
}
