/**
 `move_all`: the per-tick toroidal wrap and speed-proportional health decay.

 Rapier has already advanced every kinematic body by `velocity * dt` when
 this system runs, so the positions in the store are the post-integration
 positions. Only entities that carry a velocity are visited.
 */
module Movement {
  import opened Entities

  /**
   One axis of the toroidal wrap on a world of the given extent centred on
   the origin: at most one correction of one extent.
   */
  function WrapAxis(c: real, extent: real): (r: real)
    ensures r == c || r == c - extent || r == c + extent
    ensures c > extent / 2.0 ==> r == c - extent
    ensures c <= extent / 2.0 && c < -extent / 2.0 ==> r == c + extent
    ensures -extent / 2.0 <= c <= extent / 2.0 ==> r == c
  {
    if c > extent / 2.0 then c - extent
    else if c < -extent / 2.0 then c + extent
    else c
  }

  /** `c` lies inside the wrap bounds of an axis of the given extent. */
  predicate InAxis(c: real, extent: real)
  {
    -extent / 2.0 <= c <= extent / 2.0
  }

  /** `c` has moved less than one extent past the wrap bounds. */
  predicate WithinOneWrap(c: real, extent: real)
  {
    -3.0 * extent / 2.0 <= c <= 3.0 * extent / 2.0
  }

  /** A single wrap brings any coordinate within one extent of the bounds back inside them. */
  lemma WrapAxisBounds(c: real, extent: real)
    requires extent >= 0.0
    requires WithinOneWrap(c, extent)
    ensures InAxis(WrapAxis(c, extent), extent)
  {
  }

  /** An in-bounds coordinate is a fixed point of the wrap. */
  lemma WrapAxisInBounds(c: real, extent: real)
    requires InAxis(c, extent)
    ensures WrapAxis(c, extent) == c
  {
  }

  /** Wrapping twice is wrapping once, for coordinates within one extent of the bounds. */
  lemma WrapAxisIdempotent(c: real, extent: real)
    requires extent >= 0.0
    requires WithinOneWrap(c, extent)
    ensures WrapAxis(WrapAxis(c, extent), extent) == WrapAxis(c, extent)
  {
    WrapAxisBounds(c, extent);
    WrapAxisInBounds(WrapAxis(c, extent), extent);
  }

  /**
   The wrap picks the representative of `c` on the torus: if shifting `c` by
   `k` extents (k in -1, 0, 1) lands strictly inside the bounds, that is the
   wrapped coordinate.
   */
  lemma WrapAxisIsTorusRepresentative(c: real, extent: real, k: int)
    requires extent > 0.0
    requires -1 <= k <= 1
    requires -extent / 2.0 < c + (k as real) * extent < extent / 2.0
    ensures WrapAxis(c, extent) == c + (k as real) * extent
  {
    if k == 1 {
      assert c < -extent / 2.0;
    } else if k == -1 {
      assert c > extent / 2.0;
    } else {
      assert InAxis(c, extent);
    }
  }

  function WrapPos(p: Vec2, width: real, height: real): Vec2
  {
    Vec2(WrapAxis(p.x, width), WrapAxis(p.y, height))
  }

  predicate InBounds(p: Vec2, width: real, height: real)
  {
    InAxis(p.x, width) && InAxis(p.y, height)
  }

  /**
   `health -= |v| * dt * per_vel`: moving never raises health, and a
   zero-length tick costs nothing.
   */
  function Decay(health: real, speed: real, dt: real, perVel: real): (r: real)
    ensures health - r == speed * dt * perVel
    ensures speed >= 0.0 && dt >= 0.0 && perVel >= 0.0 ==> r <= health
    ensures dt == 0.0 ==> r == health
  {
    assert speed >= 0.0 && dt >= 0.0 ==> speed * dt >= 0.0;
    assert speed * dt >= 0.0 && perVel >= 0.0 ==> speed * dt * perVel >= 0.0;
    health - speed * dt * perVel
  }

  /** The body of `move_all` for one entity. */
  function MoveEntity(e: Entity, width: real, height: real, dt: real, perVel: real): (r: Entity)
    ensures r.kind == e.kind && r.velocity == e.velocity
    ensures e.velocity.None? ==> r == e
    ensures e.velocity.Some? ==>
              && r.pos == WrapPos(e.pos, width, height)
              && e.health - r.health == e.velocity.value.Length() * dt * perVel
  {
    match e.velocity
    case None => e
    case Some(v) =>
      e.(pos := WrapPos(e.pos, width, height), health := Decay(e.health, v.Length(), dt, perVel))
  }

  /**
   `move_all`: wraps and decays every entity that has a velocity and leaves
   every other entity as it was. No entity is added, removed, retagged, or
   given a different velocity.
   */
  function MoveAll(s: Store, width: real, height: real, dt: real, perVel: real): (r: Store)
    ensures r.Keys == s.Keys
    ensures forall id :: id in s ==> r[id].kind == s[id].kind && r[id].velocity == s[id].velocity
    ensures forall id :: id in s && s[id].velocity.None? ==> r[id] == s[id]
    ensures forall id :: id in s && s[id].velocity.Some? ==>
              && r[id].pos == WrapPos(s[id].pos, width, height)
              && s[id].health - r[id].health == s[id].velocity.value.Length() * dt * perVel
  {
    map id | id in s :: MoveEntity(s[id], width, height, dt, perVel)
  }

  /** Every moving entity that stayed within one wrap of the world ends the tick inside it. */
  lemma MoveAllBounds(s: Store, width: real, height: real, dt: real, perVel: real)
    requires width >= 0.0 && height >= 0.0
    requires forall id :: id in s && s[id].velocity.Some? ==>
               WithinOneWrap(s[id].pos.x, width) && WithinOneWrap(s[id].pos.y, height)
    ensures forall id :: id in s && s[id].velocity.Some? ==>
              InBounds(MoveAll(s, width, height, dt, perVel)[id].pos, width, height)
  {
    var r := MoveAll(s, width, height, dt, perVel);
    forall id | id in s && s[id].velocity.Some?
      ensures InBounds(r[id].pos, width, height)
    {
      WrapAxisBounds(s[id].pos.x, width);
      WrapAxisBounds(s[id].pos.y, height);
    }
  }

  /** With a non-negative tick and cost, no entity's health goes up. */
  lemma MoveAllNeverHeals(s: Store, width: real, height: real, dt: real, perVel: real)
    requires dt >= 0.0 && perVel >= 0.0
    ensures forall id :: id in s ==> MoveAll(s, width, height, dt, perVel)[id].health <= s[id].health
  {
    var r := MoveAll(s, width, height, dt, perVel);
    forall id | id in s
      ensures r[id].health <= s[id].health
    {
      if s[id].velocity.Some? {
        assert r[id].health == Decay(s[id].health, s[id].velocity.value.Length(), dt, perVel);
      }
    }
  }

  /** A zero-length tick on a world where every moving entity is in bounds changes nothing. */
  lemma MoveAllIdleTick(s: Store, width: real, height: real, perVel: real)
    requires forall id :: id in s && s[id].velocity.Some? ==> InBounds(s[id].pos, width, height)
    ensures MoveAll(s, width, height, 0.0, perVel) == s
  {
    var r := MoveAll(s, width, height, 0.0, perVel);
    forall id | id in s
      ensures r[id] == s[id]
    {
      if s[id].velocity.Some? {
        WrapAxisInBounds(s[id].pos.x, width);
        WrapAxisInBounds(s[id].pos.y, height);
      }
    }
  }

  /** Summed over the whole store, a tick never raises health. */
  lemma {:induction false} MoveAllTotalHealthNeverRises(s: Store, width: real, height: real, dt: real, perVel: real)
    requires dt >= 0.0 && perVel >= 0.0
    ensures TotalHealth(MoveAll(s, width, height, dt, perVel)) <= TotalHealth(s)
    decreases |s.Keys|
  {
    if s.Keys != {} {
      var k := AnyKey(s);
      var rest := s - {k};
      assert rest.Keys == s.Keys - {k};
      MoveAllTotalHealthNeverRises(rest, width, height, dt, perVel);
      var r := MoveAll(s, width, height, dt, perVel);
      assert r - {k} == MoveAll(rest, width, height, dt, perVel);
      TotalHealthRemove(s, k);
      TotalHealthRemove(r, k);
      MoveAllNeverHeals(s, width, height, dt, perVel);
    }
  }
}
