/**
 * The timestamp generator inside `plot_timeline` (timeline.py, lines 70-78).
 * Instants are whole seconds on the local UTC+8 wall clock (no daylight saving),
 * counted from a midnight, so the top of the hour is `t - t % 3600`. For each
 * of the current hour and the two before it, the ten 6-minute marks of the hour
 * that are not after `now` are appended, and the list is then sorted newest first.
 */
module Timestamps {

  /** Minutes past the hour at which a radar frame is published. */
  const Intervals: seq<int> := [0, 6, 12, 18, 24, 30, 36, 42, 48, 54]

  /** The number of hours walked back from `now`: `range(3)`. */
  const HourBuckets: nat := 3

  /** `replace(minute=0, second=0, microsecond=0)`. */
  function TopOfHour(t: int): (h: int)
    ensures h <= t < h + 3600
  {
    t - t % 3600
  }

  /** The marks appended for the hour starting at `hour` after the first `k` intervals. */
  function HourSlots(now: int, hour: int, k: nat): (marks: seq<int>)
    requires k <= |Intervals|
    ensures |marks| <= k
  {
    if k == 0 then []
    else
      var t := hour + 60 * Intervals[k - 1];
      HourSlots(now, hour, k - 1) + (if t <= now then [t] else [])
  }

  /** The list after the first `b` hours of the outer loop. */
  function Appended(now: int, b: nat): seq<int>
    requires b <= HourBuckets
  {
    if b == 0 then [] else Appended(now, b - 1) + HourSlots(now, TopOfHour(now - 3600 * (b - 1)), |Intervals|)
  }

  /** Zero seconds and a minute of the hour among the publication intervals. */
  predicate OnGrid(t: int)
  {
    t % 60 == 0 && (t % 3600) / 60 in Intervals
  }

  /** In the hour of `now` or one of the two hours before it. */
  predicate InWindow(now: int, t: int)
  {
    TopOfHour(t) == TopOfHour(now) || TopOfHour(t) == TopOfHour(now) - 3600 ||
    TopOfHour(t) == TopOfHour(now) - 7200
  }

  /** The instants the generator is meant to produce for `now`. */
  predicate IsSlot(now: int, t: int)
  {
    t <= now && OnGrid(t) && InWindow(now, t)
  }

  predicate NonIncreasing(s: seq<int>)
  {
    forall i, j :: 0 <= i < j < |s| ==> s[i] >= s[j]
  }

  predicate StrictlyDescending(s: seq<int>)
  {
    forall i, j :: 0 <= i < j < |s| ==> s[i] > s[j]
  }

  predicate NoDuplicates(s: seq<int>)
  {
    forall i, j :: 0 <= i < j < |s| ==> s[i] != s[j]
  }

  /** Inserts `x` before the first element not above it. */
  function Insert(x: int, s: seq<int>): (r: seq<int>)
    ensures multiset(r) == multiset(s) + multiset{x}
  {
    if s == [] || x >= s[0] then [x] + s
    else
      assert s == [s[0]] + s[1..];
      [s[0]] + Insert(x, s[1..])
  }

  /** `list.sort(reverse=True)`, as an insertion sort on the list's value. */
  function SortDescending(s: seq<int>): (r: seq<int>)
    ensures multiset(r) == multiset(s)
  {
    if s == [] then []
    else
      assert s == [s[0]] + s[1..];
      Insert(s[0], SortDescending(s[1..]))
  }

  /** Every element of `Insert(x, s)` is `x` or an element of `s`. */
  lemma InsertElements(x: int, s: seq<int>, y: int)
    requires y in Insert(x, s)
    ensures y == x || y in s
  {
    assert y in multiset(Insert(x, s));
  }

  lemma {:induction false} InsertKeepsOrder(x: int, s: seq<int>)
    requires NonIncreasing(s)
    ensures NonIncreasing(Insert(x, s))
  {
    if s != [] && x < s[0] {
      var rest := Insert(x, s[1..]);
      InsertKeepsOrder(x, s[1..]);
      forall j | 0 <= j < |rest| ensures s[0] >= rest[j] {
        InsertElements(x, s[1..], rest[j]);
      }
    }
  }

  lemma {:induction false} InsertKeepsStrictOrder(x: int, s: seq<int>)
    requires StrictlyDescending(s) && x !in s
    ensures StrictlyDescending(Insert(x, s))
  {
    if s != [] && x < s[0] {
      var rest := Insert(x, s[1..]);
      InsertKeepsStrictOrder(x, s[1..]);
      forall j | 0 <= j < |rest| ensures s[0] > rest[j] {
        InsertElements(x, s[1..], rest[j]);
      }
    }
  }

  /** The sorted list is newest first and holds the same elements. */
  lemma {:induction false} SortOrders(s: seq<int>)
    ensures NonIncreasing(SortDescending(s))
    ensures NoDuplicates(s) ==> StrictlyDescending(SortDescending(s))
  {
    if s != [] {
      var rest := SortDescending(s[1..]);
      SortOrders(s[1..]);
      InsertKeepsOrder(s[0], rest);
      if NoDuplicates(s) {
        assert NoDuplicates(s[1..]);
        assert s[0] !in multiset(s[1..]);
        InsertKeepsStrictOrder(s[0], rest);
      }
    }
  }

  // ---------------------------------------------------------------------------
  // Arithmetic on the wall clock

  /** Any decomposition `a == d * q + r` with `0 <= r < d` is the quotient and remainder. */
  lemma DivModUnique(a: int, d: int, q: int, r: int)
    requires d > 0 && a == d * q + r && 0 <= r < d
    ensures a / d == q && a % d == r
  {
    var q', r' := a / d, a % d;
    assert d * (q - q') == r' - r;
    if q - q' >= 1 {
      MulAtLeast(d, q - q');
    } else if q' - q >= 1 {
      MulAtLeast(d, q' - q);
    }
  }

  /** A positive multiple of `d` is at least `d`. */
  lemma MulAtLeast(d: int, n: int)
    requires d > 0 && n >= 1
    ensures d * n >= d
  {
  }

  /** Walking back whole hours walks back the top of the hour by the same amount. */
  lemma TopOfHourShift(t: int, h: int)
    ensures TopOfHour(t - 3600 * h) == TopOfHour(t) - 3600 * h
    ensures TopOfHour(t) % 3600 == 0
  {
    DivModUnique(t - 3600 * h, 3600, t / 3600 - h, t % 3600);
    DivModUnique(TopOfHour(t), 3600, t / 3600, 0);
  }

  /** A mark of an aligned hour is on the grid and in that hour, and every such instant is a mark. */
  lemma MarksOfHour(hour: int, t: int)
    requires hour % 3600 == 0
    ensures (exists j :: 0 <= j < |Intervals| && t == hour + 60 * Intervals[j]) <==> (TopOfHour(t) == hour && OnGrid(t))
  {
    var q := hour / 3600;
    if j :| 0 <= j < |Intervals| && t == hour + 60 * Intervals[j] {
      DivModUnique(t, 3600, q, 60 * Intervals[j]);
      DivModUnique(t, 60, 60 * q + Intervals[j], 0);
      DivModUnique(60 * Intervals[j], 60, Intervals[j], 0);
    }
    if TopOfHour(t) == hour && OnGrid(t) {
      var m := (t % 3600) / 60;
      var j :| 0 <= j < |Intervals| && Intervals[j] == m;
      DivModUnique(t, 60, 60 * q + m, t % 3600 - 60 * m);
      assert t == hour + 60 * Intervals[j];
    }
  }

  // ---------------------------------------------------------------------------
  // The marks appended for one hour

  lemma {:induction false} HourSlotsMembers(now: int, hour: int, k: nat)
    requires k <= |Intervals|
    ensures forall t :: t in HourSlots(now, hour, k) <==>
      t <= now && exists j :: 0 <= j < k && t == hour + 60 * Intervals[j]
  {
    if k > 0 {
      HourSlotsMembers(now, hour, k - 1);
    }
  }

  lemma {:induction false} HourSlotsAscending(now: int, hour: int, k: nat)
    requires k <= |Intervals|
    ensures forall i, j :: 0 <= i < j < |HourSlots(now, hour, k)| ==> HourSlots(now, hour, k)[i] < HourSlots(now, hour, k)[j]
  {
    if k > 0 {
      var front := HourSlots(now, hour, k - 1);
      HourSlotsAscending(now, hour, k - 1);
      HourSlotsMembers(now, hour, k - 1);
      forall i | 0 <= i < |front| ensures front[i] < hour + 60 * Intervals[k - 1] {
        assert front[i] in front;
      }
    }
  }

  lemma {:induction false} HourSlotsLength(now: int, hour: int, k: nat)
    requires k <= |Intervals|
    ensures |HourSlots(now, hour, k)| == if now < hour then 0
                                  else if k <= (now - hour) / 360 then k
                                  else (now - hour) / 360 + 1
  {
    if k > 0 {
      HourSlotsLength(now, hour, k - 1);
      assert Intervals[k - 1] == 6 * (k - 1);
    }
  }

  lemma NoDuplicatesConcat(a: seq<int>, b: seq<int>)
    requires NoDuplicates(a) && NoDuplicates(b)
    requires forall x :: x in a ==> x !in b
    ensures NoDuplicates(a + b)
  {
    forall i, j | 0 <= i < j < |a + b| ensures (a + b)[i] != (a + b)[j] {
      if i < |a| && j >= |a| {
        assert (a + b)[i] in a && (a + b)[j] in b;
      }
    }
  }

  /** What the two nested loops leave in the list, before sorting. */
  lemma AppendedAre(now: int)
    ensures forall t :: t in Appended(now, HourBuckets) <==> IsSlot(now, t)
    ensures NoDuplicates(Appended(now, HourBuckets))
    ensures |Appended(now, HourBuckets)| == 21 + (now % 3600) / 360
  {
    AppendedMembers(now);
    AppendedNoDuplicates(now);
    AppendedLength(now);
  }

  /** The outer loop visits the hour of `now` and the two hours before it, in that order. */
  lemma AppendedThreeHours(now: int)
    ensures TopOfHour(now) % 3600 == 0
    ensures Appended(now, HourBuckets) == ThreeHours(now, TopOfHour(now))
  {
    TopOfHourShift(now, 0);
    TopOfHourShift(now, 1);
    TopOfHourShift(now, 2);
    var f := TopOfHour(now);
    assert Appended(now, 1) == HourSlots(now, f, |Intervals|);
    assert Appended(now, 2) == HourSlots(now, f, |Intervals|) + HourSlots(now, f - 3600, |Intervals|);
  }

  /** The marks of the hour starting at `f` and of the two hours before it. */
  function ThreeHours(now: int, f: int): seq<int>
  {
    HourSlots(now, f, |Intervals|) + HourSlots(now, f - 3600, |Intervals|) + HourSlots(now, f - 7200, |Intervals|)
  }

  lemma AppendedMembers(now: int)
    ensures forall t :: t in Appended(now, HourBuckets) <==> IsSlot(now, t)
  {
    AppendedThreeHours(now);
    ThreeHoursMembers(now, TopOfHour(now));
  }

  lemma ThreeHoursMembers(now: int, f: int)
    requires f == TopOfHour(now) && f % 3600 == 0
    ensures forall t :: t in ThreeHours(now, f) <==> IsSlot(now, t)
  {
    forall t ensures t in ThreeHours(now, f) <==> IsSlot(now, t) {
      HourSlotsAt(now, f, t);
      HourSlotsAt(now, f - 3600, t);
      HourSlotsAt(now, f - 7200, t);
    }
  }

  /** One instant is among the marks of an aligned hour exactly when it is an on-grid instant of that hour not after `now`. */
  lemma HourSlotsAt(now: int, hour: int, t: int)
    requires hour % 3600 == 0
    ensures t in HourSlots(now, hour, |Intervals|) <==> t <= now && TopOfHour(t) == hour && OnGrid(t)
  {
    HourSlotsMembers(now, hour, |Intervals|);
    MarksOfHour(hour, t);
  }

  /** The marks of an hour lie within that hour. */
  lemma HourSlotsRange(now: int, hour: int)
    ensures forall x :: x in HourSlots(now, hour, |Intervals|) ==> hour <= x < hour + 3600
  {
    HourSlotsMembers(now, hour, |Intervals|);
  }

  lemma AppendedNoDuplicates(now: int)
    ensures NoDuplicates(Appended(now, HourBuckets))
  {
    AppendedThreeHours(now);
    ThreeHoursNoDuplicates(now, TopOfHour(now));
  }

  lemma ThreeHoursNoDuplicates(now: int, f: int)
    ensures NoDuplicates(ThreeHours(now, f))
  {
    var a, b, c := HourSlots(now, f, |Intervals|), HourSlots(now, f - 3600, |Intervals|), HourSlots(now, f - 7200, |Intervals|);
    HourSlotsAscending(now, f, |Intervals|);
    HourSlotsAscending(now, f - 3600, |Intervals|);
    HourSlotsAscending(now, f - 7200, |Intervals|);
    HourSlotsRange(now, f);
    HourSlotsRange(now, f - 3600);
    HourSlotsRange(now, f - 7200);
    NoDuplicatesConcat(a, b);
    NoDuplicatesConcat(a + b, c);
  }

  lemma AppendedLength(now: int)
    ensures |Appended(now, HourBuckets)| == 21 + (now % 3600) / 360
  {
    AppendedThreeHours(now);
    ThreeHoursLength(now, TopOfHour(now));
  }

  lemma ThreeHoursLength(now: int, f: int)
    requires f == TopOfHour(now)
    ensures |ThreeHours(now, f)| == 21 + (now % 3600) / 360
  {
    HourSlotsLength(now, f, |Intervals|);
    HourSlotsLength(now, f - 3600, |Intervals|);
    HourSlotsLength(now, f - 7200, |Intervals|);
  }

  lemma IntervalsAreSixMinutesApart()
    ensures forall j :: 0 <= j < |Intervals| ==> Intervals[j] == 6 * j
  {
  }

  /** An on-grid instant falls on a 6-minute boundary. */
  lemma OnGridIsBoundary(t: int)
    requires OnGrid(t)
    ensures t % 360 == 0
  {
    IntervalsAreSixMinutesApart();
    var q, r := t / 3600, t % 3600;
    var m :| 0 <= m < |Intervals| && Intervals[m] == r / 60;
    assert r / 60 == 6 * m;
    assert r % 60 == 0 by { DivModUnique(t, 60, 60 * q + r / 60, r % 60); }
    assert r == 360 * m;
    assert t == 360 * (10 * q + m);
    DivModUnique(t, 360, 10 * q + m, 0);
  }

  /** A candidate is a six-minute boundary, not after `now`, and no earlier than two hours before the top of now's hour. */
  lemma SlotWindow(now: int, t: int)
    requires IsSlot(now, t)
    ensures t % 360 == 0
    ensures TopOfHour(now) - 7200 <= t <= now
  {
    OnGridIsBoundary(t);
  }

  /** The newest mark is the last 6-minute boundary not after `now`. */
  lemma NewestSlot(now: int)
    ensures IsSlot(now, now - now % 360)
    ensures forall t :: IsSlot(now, t) ==> t <= now - now % 360
  {
    BoundaryIsSlot(now);
    forall t | IsSlot(now, t) ensures t <= now - now % 360 {
      OnGridIsBoundary(t);
      BoundaryNotAfter(now, t);
    }
  }

  lemma BoundaryIsSlot(now: int)
    ensures IsSlot(now, now - now % 360)
  {
    var f := TopOfHour(now);
    var j := (now % 3600) / 360;
    IntervalsAreSixMinutesApart();
    DivModUnique(now, 360, 10 * (now / 3600) + j, now % 3600 - 360 * j);
    var b := now - now % 360;
    assert b == f + 60 * Intervals[j];
    TopOfHourShift(now, 0);
    MarksOfHour(f, b);
  }

  lemma BoundaryNotAfter(now: int, t: int)
    requires t % 360 == 0 && t <= now
    ensures t <= now - now % 360
  {
    DivModUnique(t, 360, t / 360, 0);
    DivModUnique(now, 360, now / 360, now % 360);
  }

  /** Sorting the appended list gives the generator's result. */
  lemma SortedSlots(now: int)
    ensures forall t :: t in SortDescending(Appended(now, HourBuckets)) <==> IsSlot(now, t)
    ensures StrictlyDescending(SortDescending(Appended(now, HourBuckets)))
    ensures |SortDescending(Appended(now, HourBuckets))| == 21 + (now % 3600) / 360
    ensures SortDescending(Appended(now, HourBuckets))[0] == now - now % 360
  {
    var s := Appended(now, HourBuckets);
    var r := SortDescending(s);
    AppendedAre(now);
    SortOrders(s);
    assert |r| == |multiset(r)| == |multiset(s)| == |s|;
    forall t ensures t in r <==> IsSlot(now, t) {
      assert t in r <==> t in multiset(r);
      assert t in s <==> t in multiset(s);
    }
    NewestSlot(now);
    assert r[0] in r;
  }

  // ---------------------------------------------------------------------------
  // The generator

  /**
   * The timestamps of `plot_timeline`: the 6-minute marks of the current hour
   * and the two before it that are not after `now`, newest first.
   */
  method GenerateTimestamps(now: int) returns (ts: seq<int>)
    ensures forall t :: t in ts <==> IsSlot(now, t)
    ensures StrictlyDescending(ts)
    ensures |ts| == 21 + (now % 3600) / 360 && |ts| <= 30
    ensures ts[0] == now - now % 360
  {
    ts := [];
    for h := 0 to HourBuckets
      invariant ts == Appended(now, h)
    {
      var hour := TopOfHour(now - 3600 * h);
      for m := 0 to |Intervals|
        invariant ts == Appended(now, h) + HourSlots(now, hour, m)
      {
        var t := hour + 60 * Intervals[m];
        if t <= now {
          ts := ts + [t];
        }
      }
    }
    SortedSlots(now);
    ts := SortDescending(ts);
  }
}
