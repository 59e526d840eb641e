/**
 * Dropping the failed samples and turning pixel counts into areas
 * (timeline.py, lines 83-91). The failed samples are filtered out of the
 * counts and, through `zip`, out of the timestamps, keeping the two lists in
 * step; each band's counts are divided by the pixels-per-square-kilometre
 * constant and values under the noise floor become 0.
 */
module Aggregate {
  import opened Wrappers
  import opened Timestamps

  /** Pixels of the 320x400 crop per square kilometre of ground. */
  const PixelsPerSquareKm: real := 1765.2936237

  /** Areas below this many square kilometres are treated as noise. */
  const NoiseFloor: real := 0.45

  // ---------------------------------------------------------------------------
  // Filtering the failed samples

  /** Line 84: the count vectors of the successful samples, in sample order. */
  function ValidCounts(results: seq<Option<seq<nat>>>): (valid: seq<seq<nat>>)
    ensures |valid| <= |results|
  {
    if results == [] then []
    else
      var front := results[..|results| - 1];
      var last := results[|results| - 1];
      ValidCounts(front) + (if last.Some? then [last.value] else [])
  }

  /** The comprehension of line 85 over lists of equal length. */
  function KeepPaired(results: seq<Option<seq<nat>>>, ts: seq<int>): (kept: seq<int>)
    requires |results| == |ts|
    ensures |kept| <= |ts|
  {
    if results == [] then []
    else
      KeepPaired(results[..|results| - 1], ts[..|ts| - 1]) +
      (if results[|results| - 1].Some? then [ts[|ts| - 1]] else [])
  }

  /** Line 85: the timestamps whose sample succeeded; `zip` stops at the shorter list. */
  function ValidTimestamps(results: seq<Option<seq<nat>>>, ts: seq<int>): (kept: seq<int>)
    ensures |kept| <= |results| && |kept| <= |ts|
  {
    var n := if |results| <= |ts| then |results| else |ts|;
    KeepPaired(results[..n], ts[..n])
  }

  /** The positions of the successful samples, in increasing order. */
  function SuccessIndices(results: seq<Option<seq<nat>>>): (idx: seq<nat>)
    ensures forall k :: 0 <= k < |idx| ==> idx[k] < |results| && results[idx[k]].Some?
    ensures forall k, l :: 0 <= k < l < |idx| ==> idx[k] < idx[l]
    ensures forall i :: 0 <= i < |results| && results[i].Some? ==> i in idx
  {
    if results == [] then []
    else
      var n := |results| - 1;
      var front := SuccessIndices(results[..n]);
      assert forall i :: 0 <= i < n ==> results[..n][i] == results[i];
      front + (if results[n].Some? then [n] else [])
  }

  /** The number of successful samples. */
  function Successes(results: seq<Option<seq<nat>>>): nat
  {
    if results == [] then 0
    else Successes(results[..|results| - 1]) + (if results[|results| - 1].Some? then 1 else 0)
  }

  /**
   * The kept counts and the kept timestamps both have one entry per
   * successful sample, and the k-th of each comes from the k-th successful
   * sample: the two lists stay paired and keep the samples' order.
   */
  lemma {:induction false} FilterAligned(results: seq<Option<seq<nat>>>, ts: seq<int>)
    requires |results| == |ts|
    ensures |ValidCounts(results)| == |ValidTimestamps(results, ts)| == |SuccessIndices(results)| == Successes(results)
    ensures forall k :: 0 <= k < |SuccessIndices(results)| ==>
      ValidCounts(results)[k] == results[SuccessIndices(results)[k]].value &&
      ValidTimestamps(results, ts)[k] == ts[SuccessIndices(results)[k]]
  {
    assert results[..|results|] == results && ts[..|ts|] == ts;
    if results != [] {
      var n := |results| - 1;
      FilterAligned(results[..n], ts[..n]);
      assert results[..n][..n] == results[..n] && ts[..n][..n] == ts[..n];
      var idx := SuccessIndices(results[..n]);
      forall k | 0 <= k < |idx| ensures results[..n][idx[k]] == results[idx[k]] && ts[..n][idx[k]] == ts[idx[k]] {
      }
    }
  }

  /** A timestamp is kept exactly when it was generated and its sample succeeded. */
  lemma KeptTimestamps(results: seq<Option<seq<nat>>>, ts: seq<int>, t: int)
    requires |results| == |ts|
    ensures t in ValidTimestamps(results, ts) <==> exists i :: 0 <= i < |ts| && ts[i] == t && results[i].Some?
  {
    FilterAligned(results, ts);
    var idx := SuccessIndices(results);
    var kept := ValidTimestamps(results, ts);
    if t in kept {
      var k :| 0 <= k < |kept| && kept[k] == t;
      assert ts[idx[k]] == t;
    }
    if i :| 0 <= i < |ts| && ts[i] == t && results[i].Some? {
      var k :| 0 <= k < |idx| && idx[k] == i;
      assert kept[k] == t;
    }
  }

  /** Dropping samples keeps a newest-first list newest first. */
  lemma KeptTimestampsDescending(results: seq<Option<seq<nat>>>, ts: seq<int>)
    requires |results| == |ts|
    requires StrictlyDescending(ts)
    ensures StrictlyDescending(ValidTimestamps(results, ts))
  {
    FilterAligned(results, ts);
  }

  /** When every successful sample has `width` counts, so has every kept vector. */
  lemma {:induction false} ValidCountsWidth(results: seq<Option<seq<nat>>>, width: nat)
    requires forall i :: 0 <= i < |results| && results[i].Some? ==> |results[i].value| == width
    ensures forall k :: 0 <= k < |ValidCounts(results)| ==> |ValidCounts(results)[k]| == width
  {
    if results != [] {
      ValidCountsWidth(results[..|results| - 1], width);
    }
  }

  // ---------------------------------------------------------------------------
  // Areas and the noise floor

  /** Square kilometres covered by `count` pixels (exact rational division). */
  function Area(count: int): (a: real)
    ensures a * PixelsPerSquareKm == count as real
    ensures count >= 0 ==> a >= 0.0
  {
    count as real / PixelsPerSquareKm
  }

  /** Line 91: values under the noise floor become exactly 0. */
  function Suppress(v: real): (r: real)
    ensures r == v || r == 0.0
    ensures r == 0.0 || r >= NoiseFloor
  {
    if v >= NoiseFloor then v else 0.0
  }

  /**
   * Lines 90-91 for one band: the band's column of the kept counts, as
   * areas with the noise floor applied; None where NumPy raises, when no
   * sample was kept.
   */
  function AreaSeries(valid: seq<seq<nat>>, band: nat): (r: Option<seq<real>>)
    requires forall k :: 0 <= k < |valid| ==> band < |valid[k]|
    ensures r.None? <==> valid == []
    ensures r.Some? ==> |r.value| == |valid|
    ensures r.Some? ==> forall k :: 0 <= k < |valid| ==>
      (r.value[k] == 0.0 || (r.value[k] == Area(valid[k][band]) && r.value[k] >= NoiseFloor))
    ensures r.Some? ==> forall k :: 0 <= k < |valid| ==>
      (Area(valid[k][band]) < NoiseFloor ==> r.value[k] == 0.0)
    ensures r.Some? ==> forall k :: 0 <= k < |valid| ==>
      (Area(valid[k][band]) >= NoiseFloor ==> r.value[k] == Area(valid[k][band]))
  {
    if valid == [] then None
    else Some(seq(|valid|, k requires 0 <= k < |valid| => Suppress(Area(valid[k][band]))))
  }

  /** A count survives the noise floor exactly when it is at least 795 pixels. */
  lemma SurvivingCounts(count: nat)
    ensures Suppress(Area(count)) != 0.0 <==> count >= 795
    ensures Suppress(Area(count)) >= 0.0
  {
    if count >= 795 {
      assert Area(count) >= 795.0 / PixelsPerSquareKm;
    } else {
      assert Area(count) <= 794.0 / PixelsPerSquareKm;
    }
  }

  /** More pixels never give a smaller value. */
  lemma SuppressMonotone(a: nat, b: nat)
    requires a <= b
    ensures Suppress(Area(a)) <= Suppress(Area(b))
  {
    assert Area(a) <= Area(b);
  }

  /** The boundary values: one area unit stays, 0.45 stays, 0.40 is zeroed. */
  lemma NoiseFloorExamples()
    ensures Suppress(1765.2936237 / PixelsPerSquareKm) == 1.0
    ensures Suppress(0.45) == 0.45
    ensures Suppress(0.40) == 0.0
  {
  }
}
