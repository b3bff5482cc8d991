/**
 `eat_food_particle`: resolving a batch of rapier collision events.

 A `Started` contact between a critter and a food item, in either order,
 moves all of the food's health to the critter and leaves the food at zero.
 Every other event is a no-op: two critters, two food items, an id that no
 longer names an entity, the same id twice (which `get_many_mut` refuses),
 and every `Stopped` event.
 */
module Feeding {
  import opened Entities

  /** A rapier `CollisionEvent`; its flags are never read. */
  datatype CollisionEvent = Started(a: Id, b: Id) | Stopped(a: Id, b: Id)

  /**
   The event is a contact start between a live critter and a live food item,
   in either order: the two `Ok` patterns of the match.
   */
  predicate IsMeal(s: Store, ev: CollisionEvent): (b: bool)
    ensures b <==>
              && ev.Started? && ev.a in s && ev.b in s && ev.a != ev.b
              && (|| (s[ev.a].kind == Critter && s[ev.b].kind == Food)
                  || (s[ev.a].kind == Food && s[ev.b].kind == Critter))
  {
    && ev.Started?
    && ev.a in s && ev.b in s && ev.a != ev.b
    && s[ev.a].kind != s[ev.b].kind
  }

  /** The critter of a meal. */
  function Eater(s: Store, ev: CollisionEvent): (c: Id)
    requires IsMeal(s, ev)
    ensures c in s && s[c].kind == Critter
    ensures c == ev.a || c == ev.b
  {
    if s[ev.a].kind == Critter then ev.a else ev.b
  }

  /** The food item of a meal. */
  function Meal(s: Store, ev: CollisionEvent): (f: Id)
    requires IsMeal(s, ev)
    ensures f in s && s[f].kind == Food
    ensures f == ev.a || f == ev.b
    ensures f != Eater(s, ev)
  {
    if s[ev.a].kind == Food then ev.a else ev.b
  }

  /**
   `critter.0 += mem::take(&mut food.0)`: the critter gains the food's whole
   health, the food is left at zero, and no other entity or field changes.
   */
  function Transfer(s: Store, critter: Id, food: Id): (r: Store)
    requires critter in s && food in s && critter != food
    ensures r.Keys == s.Keys
    ensures r[critter] == s[critter].(health := s[critter].health + s[food].health)
    ensures r[food] == s[food].(health := 0.0)
    ensures forall id :: id in s && id != critter && id != food ==> r[id] == s[id]
    ensures r[critter].health + r[food].health == s[critter].health + s[food].health
  {
    s[critter := s[critter].(health := s[critter].health + s[food].health)]
     [food := s[food].(health := 0.0)]
  }

  /** One collision event. */
  function EatOne(s: Store, ev: CollisionEvent): (r: Store)
    ensures r.Keys == s.Keys
    ensures forall id :: id in s ==>
              r[id].kind == s[id].kind && r[id].velocity == s[id].velocity && r[id].pos == s[id].pos
    ensures !IsMeal(s, ev) ==> r == s
    ensures IsMeal(s, ev) ==>
              && r[Eater(s, ev)].health == s[Eater(s, ev)].health + s[Meal(s, ev)].health
              && r[Meal(s, ev)].health == 0.0
              && forall id :: id in s && id != ev.a && id != ev.b ==> r[id] == s[id]
  {
    match ev
    case Stopped(_, _) => s
    case Started(a, b) =>
      if a in s && b in s && a != b then
        match (s[a].kind, s[b].kind)
        case (Critter, Food) => Transfer(s, a, b)
        case (Food, Critter) => Transfer(s, b, a)
        case _ => s
      else s
  }

  /** The whole batch, in order. */
  function Eat(s: Store, events: seq<CollisionEvent>): (r: Store)
    ensures r.Keys == s.Keys
    ensures forall id :: id in s ==>
              r[id].kind == s[id].kind && r[id].velocity == s[id].velocity && r[id].pos == s[id].pos
    decreases |events|
  {
    if events == [] then s else Eat(EatOne(s, events[0]), events[1..])
  }

  /** The events the resolver ignores leave every entity as it was. */
  lemma IgnoredEventsAreNoOps(s: Store, ev: CollisionEvent)
    requires || ev.Stopped?
             || ev.a !in s || ev.b !in s
             || ev.a == ev.b
             || s[ev.a].kind == s[ev.b].kind
    ensures EatOne(s, ev) == s
  {
  }

  /** A meal leaves the two healths' sum unchanged, whichever order the pair is reported in. */
  lemma MealConservesPair(s: Store, c: Id, f: Id)
    requires c in s && f in s && s[c].kind == Critter && s[f].kind == Food
    ensures EatOne(s, Started(c, f)) == EatOne(s, Started(f, c))
    ensures EatOne(s, Started(c, f))[c].health + EatOne(s, Started(c, f))[f].health
            == s[c].health + s[f].health
  {
  }

  /** One event never changes the store's total health. */
  lemma EatOneConservesHealth(s: Store, ev: CollisionEvent)
    ensures TotalHealth(EatOne(s, ev)) == TotalHealth(s)
  {
    if IsMeal(s, ev) {
      var c, f := Eater(s, ev), Meal(s, ev);
      var s1 := s[c := s[c].(health := s[c].health + s[f].health)];
      TotalHealthUpdate(s, c, s[c].(health := s[c].health + s[f].health));
      TotalHealthUpdate(s1, f, s1[f].(health := 0.0));
      assert EatOne(s, ev) == s1[f := s1[f].(health := 0.0)];
    }
  }

  /** A whole batch never changes the store's total health. */
  lemma {:induction false} EatConservesHealth(s: Store, events: seq<CollisionEvent>)
    ensures TotalHealth(Eat(s, events)) == TotalHealth(s)
    decreases |events|
  {
    if events != [] {
      EatOneConservesHealth(s, events[0]);
      EatConservesHealth(EatOne(s, events[0]), events[1..]);
    }
  }

  /** Reporting the same event twice in a row has the effect of reporting it once. */
  lemma EatOneIdempotent(s: Store, ev: CollisionEvent)
    ensures EatOne(EatOne(s, ev), ev) == EatOne(s, ev)
  {
    if IsMeal(s, ev) {
      var r := EatOne(s, ev);
      assert IsMeal(r, ev);
      assert Eater(r, ev) == Eater(s, ev) && Meal(r, ev) == Meal(s, ev);
    }
  }

  /** A contact report between `c` and `f`, in either order. */
  predicate Reports(ev: CollisionEvent, c: Id, f: Id)
  {
    ev == Started(c, f) || ev == Started(f, c)
  }

  /**
   A duplicated contact report for one food item, with each report in either
   order, feeds the critter the food's original health once, not twice.
   */
  lemma DuplicateReportFeedsOnce(s: Store, c: Id, f: Id, eat: CollisionEvent, dup: CollisionEvent)
    requires c in s && f in s && s[c].kind == Critter && s[f].kind == Food
    requires Reports(eat, c, f) && Reports(dup, c, f)
    ensures Eat(s, [eat, dup]) == Eat(s, [eat])
    ensures Eat(s, [eat, dup])[c].health == s[c].health + s[f].health
    ensures Eat(s, [eat, dup])[f].health == 0.0
  {
    var once := EatOne(s, eat);
    assert IsMeal(s, eat) && Eater(s, eat) == c && Meal(s, eat) == f;
    assert Eat(s, [eat]) == Eat(once, []) == once;
    assert [eat, dup][1..] == [dup];
    assert Eat(once, [dup]) == Eat(EatOne(once, dup), []);
    assert IsMeal(once, dup) && Meal(once, dup) == f;
    EmptyMealIsNoOp(once, dup);
  }

  /** A batch split in two is the first part followed by the second. */
  lemma {:induction false} EatAppend(s: Store, a: seq<CollisionEvent>, b: seq<CollisionEvent>)
    ensures Eat(s, a + b) == Eat(Eat(s, a), b)
    decreases |a|
  {
    if a == [] {
      assert a + b == b;
    } else {
      assert (a + b)[0] == a[0];
      assert (a + b)[1..] == a[1..] + b;
      EatAppend(EatOne(s, a[0]), a[1..], b);
    }
  }

  /** A meal whose food is already empty changes nothing. */
  lemma EmptyMealIsNoOp(s: Store, ev: CollisionEvent)
    requires IsMeal(s, ev)
    requires s[Meal(s, ev)].health == 0.0
    ensures EatOne(s, ev) == s
  {
    var c, f := Eater(s, ev), Meal(s, ev);
    assert EatOne(s, ev) == Transfer(s, c, f);
    assert Transfer(s, c, f) == s;
  }

  /** An emptied food item stays empty through any batch: nothing ever feeds food. */
  lemma {:induction false} EmptyFoodStaysEmpty(s: Store, f: Id, events: seq<CollisionEvent>)
    requires f in s && s[f].kind == Food && s[f].health == 0.0
    ensures Eat(s, events)[f].health == 0.0
    decreases |events|
  {
    if events != [] {
      var s1 := EatOne(s, events[0]);
      assert s1[f].health == 0.0 by {
        if IsMeal(s, events[0]) && f != Meal(s, events[0]) {
          assert f != Eater(s, events[0]);
        }
      }
      EmptyFoodStaysEmpty(s1, f, events[1..]);
    }
  }

  /** Once a critter has eaten a food item, the food stays empty for the rest of the batch. */
  lemma EatenFoodStaysEmpty(s: Store, c: Id, f: Id, eat: CollisionEvent, pre: seq<CollisionEvent>, mid: seq<CollisionEvent>)
    requires c in s && f in s && s[c].kind == Critter && s[f].kind == Food
    requires Reports(eat, c, f)
    ensures Eat(s, pre + [eat] + mid)[f].health == 0.0
  {
    var s0 := Eat(s, pre);
    EatAppend(s, pre, [eat]);
    assert Eat(s0, [eat]) == EatOne(s0, eat) by {
      assert [eat][1..] == [];
    }
    var s1 := EatOne(s0, eat);
    assert IsMeal(s0, eat) && Meal(s0, eat) == f;
    EmptyFoodStaysEmpty(s1, f, mid);
    EatAppend(s, pre + [eat], mid);
  }

  /** A meal whose food is empty by the time it is reached, anywhere in a batch, changes nothing. */
  lemma EmptyMealInBatchIsNoOp(s: Store, first: seq<CollisionEvent>, ev: CollisionEvent, post: seq<CollisionEvent>)
    requires IsMeal(Eat(s, first), ev)
    requires Eat(s, first)[Meal(Eat(s, first), ev)].health == 0.0
    ensures Eat(s, first + [ev] + post) == Eat(s, first + post)
  {
    var s2 := Eat(s, first);
    EmptyMealIsNoOp(s2, ev);
    assert first + [ev] + post == first + ([ev] + post);
    EatAppend(s, first, [ev] + post);
    assert ([ev] + post)[0] == ev && ([ev] + post)[1..] == post;
    EatAppend(s, first, post);
  }

  /**
   A second contact report for an already eaten food item, anywhere later in
   the same batch and with each report in either order, changes nothing: the
   critter is fed the food's health once.
   */
  lemma DuplicateReportAnywhereFeedsOnce(
    s: Store, c: Id, f: Id, eat: CollisionEvent, dup: CollisionEvent,
    pre: seq<CollisionEvent>, mid: seq<CollisionEvent>, post: seq<CollisionEvent>)
    requires c in s && f in s && s[c].kind == Critter && s[f].kind == Food
    requires Reports(eat, c, f) && Reports(dup, c, f)
    ensures Eat(s, pre + [eat] + mid + [dup] + post) == Eat(s, pre + [eat] + mid + post)
  {
    var first := pre + [eat] + mid;
    EatenFoodStaysEmpty(s, c, f, eat, pre, mid);
    var s2 := Eat(s, first);
    assert IsMeal(s2, dup) && Meal(s2, dup) == f;
    EmptyMealInBatchIsNoOp(s, first, dup, post);
  }

  /** Every food item in the store holds non-negative health. */
  ghost predicate FoodNonNegative(s: Store)
  {
    forall id :: id in s && s[id].kind == Food ==> s[id].health >= 0.0
  }

  /**
   While every food item is worth something non-negative, eating only feeds
   critters and only empties food: no critter loses health, and each food
   item keeps its health or drops to zero.
   */
  lemma {:induction false} EatFeedsCritters(s: Store, events: seq<CollisionEvent>)
    requires FoodNonNegative(s)
    ensures FoodNonNegative(Eat(s, events))
    ensures forall id :: id in s && s[id].kind == Critter ==> Eat(s, events)[id].health >= s[id].health
    ensures forall id :: id in s && s[id].kind == Food ==>
              Eat(s, events)[id].health == s[id].health || Eat(s, events)[id].health == 0.0
    decreases |events|
  {
    if events != [] {
      var s1 := EatOne(s, events[0]);
      assert FoodNonNegative(s1);
      EatFeedsCritters(s1, events[1..]);
    }
  }
}
