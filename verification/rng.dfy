/**
 The seeded randomness behind population generation, kept abstract.

 A driver `SmallRng` seeded from the master seed hands out one full-width
 seed per entity (`Oracle.driver(master, k)` is the k-th of them). Each
 entity seeds a private `SmallRng` from its seed and draws all of its
 attributes from it. Every entity draws in a fixed order, so a private
 stream is identified by its seed and the number of values drawn so far,
 and `Oracle.genRange(seed, n, lo, hi)` is the value of its n-th
 `gen_range(lo..hi)`. Of that value only `lo <= value < hi` is known.
 */
module Rng {
  import opened Entities
  import opened Config

  /** A 256-bit `SmallRng` seed, read as an unsigned integer. */
  type Seed = x: nat | x < 0x1_0000_0000_0000_0000_0000_0000_0000_0000_0000_0000_0000_0000_0000_0000_0000_0000

  datatype Oracle = Oracle(
    driver: (u64, nat) -> Seed,
    genRange: (Seed, nat, real, real) -> real,
    /** `(cos a, sin a)` in floating point */
    polar: real -> Direction)

  /** The only fact the model relies on: every draw respects its range. */
  ghost predicate WellBehaved(o: Oracle)
  {
    forall s, n, lo, hi :: lo < hi ==> lo <= o.genRange(s, n, lo, hi) < hi
  }

  /** A private stream: its seed and how many values have been drawn from it. */
  datatype Stream = Stream(seed: Seed, drawn: nat)

  /** `SmallRng::from_seed(seed)`: a stream nothing has been drawn from yet. */
  function FromSeed(seed: Seed): Stream
  {
    Stream(seed, 0)
  }

  /** `rng.gen_range(lo..hi)`: one draw in `[lo, hi)`, advancing the stream by one. */
  function GenRange(o: Oracle, st: Stream, lo: real, hi: real): (r: (real, Stream))
    requires WellBehaved(o)
    requires lo < hi
    ensures lo <= r.0 < hi
    ensures r.1.seed == st.seed && r.1.drawn == st.drawn + 1
  {
    (o.genRange(st.seed, st.drawn, lo, hi), Stream(st.seed, st.drawn + 1))
  }

  /** A configured range narrower than this is treated as one fixed value. */
  const FixedRangeWidth: real := 0.01

  predicate IsFixedRange(lo: real, hi: real)
  {
    Abs(hi - lo) < FixedRangeWidth
  }

  /**
   The ranges the initial-health rule accepts: a fixed range, or a non-empty
   one (`gen_range` panics on an empty range).
   */
  predicate ValidHealthRange(lo: real, hi: real)
  {
    IsFixedRange(lo, hi) || lo < hi
  }

  /**
   The initial-health rule shared by critters and food: `hi` itself when the
   range is fixed, with nothing drawn; otherwise one draw in `[lo, hi)`.
   */
  function InitHealth(o: Oracle, st: Stream, lo: real, hi: real): (r: (real, Stream))
    requires WellBehaved(o)
    requires ValidHealthRange(lo, hi)
    ensures IsFixedRange(lo, hi) ==> r.0 == hi && r.1 == st
    ensures !IsFixedRange(lo, hi) ==> lo <= r.0 < hi && r.1.seed == st.seed && r.1.drawn == st.drawn + 1
  {
    if IsFixedRange(lo, hi) then (hi, st) else GenRange(o, st, lo, hi)
  }
}
