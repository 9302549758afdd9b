/**
 * Unity's global `Random.Range` as an injected oracle.
 *
 * The engine never relies on the statistics of its random source, only on
 * the range each draw falls in. A `Random` object therefore replays two
 * arbitrary streams of raw values (one consulted when a float is asked for,
 * one when an int is asked for) and clamps the k-th raw value into the range
 * requested by the k-th call. Every sequence of in-range draws is produced by
 * some pair of streams, so the model covers exactly the behaviours the real
 * generator can show, and nothing is assumed about the streams themselves.
 */
module Oracle {

  function Min(a: real, b: real): real { if a <= b then a else b }
  function Max(a: real, b: real): real { if a <= b then b else a }

  /** The value lies between the two bounds, in whichever order they are given. */
  ghost predicate Between(x: real, lo: real, hi: real) {
    Min(lo, hi) <= x <= Max(lo, hi)
  }

  /** Forces a raw value into the closed interval spanned by `lo` and `hi`. */
  function Clamp(x: real, lo: real, hi: real): (r: real)
    ensures Between(r, lo, hi)
    ensures Between(x, lo, hi) ==> r == x
  {
    if x < Min(lo, hi) then Min(lo, hi)
    else if x > Max(lo, hi) then Max(lo, hi)
    else x
  }

  /** Forces a raw value into the half-open integer range [lo, hi). */
  function ClampIndex(x: int, lo: int, hi: int): (r: int)
    requires lo < hi
    ensures lo <= r < hi
    ensures lo <= x < hi ==> r == x
  {
    if x < lo then lo else if x >= hi then hi - 1 else x
  }

  class Random {
    /** Raw value behind the k-th draw when a float is requested. */
    const floats: nat -> real
    /** Raw value behind the k-th draw when an int is requested. */
    const ints: nat -> int
    /** Number of draws taken so far. */
    var drawn: nat

    constructor (floats: nat -> real, ints: nat -> int)
      ensures this.floats == floats && this.ints == ints && drawn == 0
    {
      this.floats := floats;
      this.ints := ints;
      drawn := 0;
    }

    /** `Random.Range(float lo, float hi)`: a value in the closed range. */
    method Range(lo: real, hi: real) returns (r: real)
      modifies `drawn
      ensures drawn == old(drawn) + 1
      ensures r == Clamp(floats(old(drawn)), lo, hi)
      ensures Between(r, lo, hi)
    {
      r := Clamp(floats(drawn), lo, hi);
      drawn := drawn + 1;
    }

    /** `Random.Range(int lo, int hi)`: a value in [lo, hi); hi is exclusive. */
    method RangeInt(lo: int, hi: int) returns (r: int)
      requires lo < hi
      modifies `drawn
      ensures drawn == old(drawn) + 1
      ensures r == ClampIndex(ints(old(drawn)), lo, hi)
      ensures lo <= r < hi
    {
      r := ClampIndex(ints(drawn), lo, hi);
      drawn := drawn + 1;
    }
  }
}
