/**
 The entity store of the simulation: the `EntityType` tag, the `Health`
 component, the rapier `Velocity` of a critter, and the map from entity id
 to entity record that the three per-tick systems read and rewrite.
 */
module Entities {

  /** A Bevy `Entity` handle. */
  type Id = nat

  datatype Option<T> = None | Some(value: T)

  datatype Vec2 = Vec2(x: real, y: real)

  function Abs(r: real): real
  {
    if r < 0.0 then -r else r
  }

  /** A vector of Euclidean length one, such as `(cos a, sin a)`. */
  predicate IsUnit(v: Vec2)
  {
    v.x * v.x + v.y * v.y == 1.0
  }

  /** A heading: a unit vector. */
  type Direction = v: Vec2 | IsUnit(v) witness Vec2(1.0, 0.0)

  /**
   A linear velocity held as a unit direction times a magnitude, which is how
   every velocity of the simulation is built.
   */
  datatype Velocity = Velocity(dir: Direction, magnitude: real) {

    /** The Cartesian vector `dir * magnitude`. */
    function Linear(): Vec2
    {
      Vec2(dir.x * magnitude, dir.y * magnitude)
    }

    /** `|v|`, the speed that health decay is charged on. */
    function Length(): real
    {
      Abs(magnitude)
    }
  }

  /** `Length` is the Euclidean length of the linear vector. */
  lemma LengthIsEuclidean(v: Velocity)
    ensures v.Length() >= 0.0
    ensures v.Length() * v.Length() == v.Linear().x * v.Linear().x + v.Linear().y * v.Linear().y
  {
    var m := v.magnitude;
    assert v.Length() * v.Length() == m * m;
    calc {
      v.Linear().x * v.Linear().x + v.Linear().y * v.Linear().y;
      (v.dir.x * m) * (v.dir.x * m) + (v.dir.y * m) * (v.dir.y * m);
      (v.dir.x * v.dir.x + v.dir.y * v.dir.y) * (m * m);
      m * m;
    }
  }

  datatype EntityType = Critter | Food

  /**
   One simulated entity: its role tag, its velocity (critters only), the
   translation of its transform, and its health.
   */
  datatype Entity = Entity(kind: EntityType, velocity: Option<Velocity>, pos: Vec2, health: real)

  type Store = map<Id, Entity>

  /** Some id of a non-empty store. */
  ghost function AnyKey(s: Store): (k: Id)
    requires s.Keys != {}
    ensures k in s
  {
    var k :| k in s; k
  }

  /** The sum of the health of every entity in the store. */
  ghost function TotalHealth(s: Store): real
    decreases |s.Keys|
  {
    if s.Keys == {} then 0.0
    else
      var k := AnyKey(s);
      assert (s - {k}).Keys == s.Keys - {k};
      s[k].health + TotalHealth(s - {k})
  }

  /** The total may be taken by splitting off any entity, not just the chosen one. */
  lemma {:induction false} TotalHealthRemove(s: Store, k: Id)
    requires k in s
    ensures TotalHealth(s) == s[k].health + TotalHealth(s - {k})
    decreases |s.Keys|
  {
    var j := AnyKey(s);
    if j != k {
      assert (s - {j}).Keys == s.Keys - {j};
      assert (s - {k}).Keys == s.Keys - {k};
      TotalHealthRemove(s - {j}, k);
      TotalHealthRemove(s - {k}, j);
      assert s - {j} - {k} == s - {k} - {j};
    }
  }

  /** Replacing one entity changes the total by exactly its change in health. */
  lemma TotalHealthUpdate(s: Store, k: Id, e: Entity)
    requires k in s
    ensures TotalHealth(s[k := e]) == TotalHealth(s) - s[k].health + e.health
  {
    TotalHealthRemove(s, k);
    TotalHealthRemove(s[k := e], k);
    assert s[k := e] - {k} == s - {k};
  }

  /**
   `commands.spawn().insert_bundle(..)` for a sequence of bundles: each one is
   registered under a fresh id, handed out in order from `next`.
   */
  function SpawnAll(s: Store, es: seq<Entity>, next: Id): (r: Store)
    requires forall id :: id in s ==> id < next
    ensures forall id :: id in r <==> id in s || next <= id < next + |es|
    ensures forall id :: id in s ==> r[id] == s[id]
    ensures forall i :: 0 <= i < |es| ==> r[next + i] == es[i]
    decreases |es|
  {
    if es == [] then s
    else
      SpawnAll(s[next := es[0]], es[1..], next + 1)
  }
}
