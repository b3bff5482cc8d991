/**
 `no_food_means_dead`: every entity whose health is at or below zero is
 despawned.
 */
module Mortality {
  import opened Entities

  /** The ids the sweep despawns. */
  ghost function Dead(s: Store): set<Id>
  {
    set id | id in s && s[id].health <= 0.0
  }

  /** Every entity left in the store has positive health. */
  ghost predicate AllAlive(s: Store)
  {
    forall id :: id in s ==> s[id].health > 0.0
  }

  /** Keeps exactly the entities the filter `health <= 0.0` rejects, untouched. */
  function Sweep(s: Store): (r: Store)
    ensures forall id :: id in r <==> id in s && s[id].health > 0.0
    ensures forall id :: id in r ==> r[id] == s[id]
  {
    map id | id in s && !(s[id].health <= 0.0) :: s[id]
  }

  /** The sweep is the store minus its dead, and every survivor is alive. */
  lemma SweepRemovesExactlyTheDead(s: Store)
    ensures Sweep(s) == s - Dead(s)
    ensures AllAlive(Sweep(s))
  {
  }

  /** The boundary is inclusive: health exactly zero is dead, any positive health survives. */
  lemma SweepBoundary(s: Store, id: Id)
    requires id in s
    ensures s[id].health == 0.0 ==> id !in Sweep(s)
    ensures s[id].health == 0.0001 ==> id in Sweep(s)
  {
  }

  /** A second sweep finds nobody left to remove. */
  lemma SweepIdempotent(s: Store)
    ensures Sweep(Sweep(s)) == Sweep(s)
  {
  }

  /** A store whose entities are all alive is left as it is. */
  lemma SweepKeepsTheLiving(s: Store)
    requires AllAlive(s)
    ensures Sweep(s) == s
  {
  }
}
