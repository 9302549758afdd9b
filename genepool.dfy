/**
 * The gene pool that `Selection` builds: for each selected index i, in
 * order, i is appended `RoundToInt(f * 10)` times, where f is the fitness
 * read for that individual (no copies when that count is not positive).
 */
module GenePool {
  import opened Numerics

  function Max0(n: int): nat { if n < 0 then 0 else n }

  /** How many entries an individual read with fitness f contributes: 10 f rounded to the nearest integer. */
  function Entries(f: real): (r: int)
    ensures -0.5 <= f * 10.0 - r as real <= 0.5
  {
    RoundToInt(f * 10.0)
  }

  /** n copies of i; none when n is not positive. */
  function Repeat(i: int, n: int): (r: seq<int>)
    ensures |r| == Max0(n)
    ensures forall e :: e in r ==> e == i
    decreases Max0(n)
  {
    if n <= 0 then [] else Repeat(i, n - 1) + [i]
  }

  /**
   * The pool built from the fitness values read for indices 0, 1, ...,
   * |fits| - 1. Only the selected indices ever enter it.
   */
  function Pool(fits: seq<real>): (r: seq<int>)
    ensures forall e :: e in r ==> 0 <= e < |fits|
  {
    if fits == [] then []
    else Pool(fits[..|fits| - 1]) + Repeat(|fits| - 1, Entries(fits[|fits| - 1]))
  }

  lemma {:induction false} RepeatCount(i: int, n: int, e: int)
    ensures multiset(Repeat(i, n))[e] == if e == i then Max0(n) else 0
    decreases Max0(n)
  {
    if n > 0 {
      RepeatCount(i, n - 1, e);
    }
  }

  /** Index i occurs exactly max(0, RoundToInt(10 * fits[i])) times. */
  lemma {:induction false} PoolCount(fits: seq<real>, i: int)
    requires 0 <= i < |fits|
    ensures multiset(Pool(fits))[i] == Max0(Entries(fits[i]))
  {
    var n := |fits| - 1;
    var front := fits[..n];
    var tail := Repeat(n, Entries(fits[n]));
    assert Pool(fits) == Pool(front) + tail;
    assert multiset(Pool(fits)) == multiset(Pool(front)) + multiset(tail);
    RepeatCount(n, Entries(fits[n]), i);
    if i < n {
      assert front[i] == fits[i];
      PoolCount(front, i);
    } else {
      assert i !in Pool(front);
      assert multiset(Pool(front))[i] == 0;
    }
  }

  /** Individuals whose fitness reads as zero contribute nothing. */
  lemma {:induction false} PoolOfZeros(fits: seq<real>)
    requires forall k :: 0 <= k < |fits| ==> fits[k] == 0.0
    ensures Pool(fits) == []
  {
    if fits != [] {
      PoolOfZeros(fits[..|fits| - 1]);
    }
  }
}
