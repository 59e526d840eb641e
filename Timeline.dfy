/**
 * The pipeline of `plot_timeline` and `process_image` (timeline.py, lines
 * 46-99) without the plotting calls: generate the timestamps, build one URL
 * per timestamp, fetch and classify each frame, drop the failures, and build
 * one area series per band. The fetcher (HTTP request, image decoding, RGBA
 * conversion and the centred crop) is a parameter.
 */
module Timeline {
  import opened Wrappers
  import opened Palette
  import opened Classify
  import opened Timestamps
  import opened Calendar
  import opened Urls
  import opened Aggregate

  /** The default `tolerance=30` of the classifiers. */
  const Tolerance: int := 30

  /**
   * The cropped pixel grid of the image at a URL, or None when the request
   * fails, the status is an error or the payload is not an image.
   */
  type Fetcher = string -> Option<Image>

  /** One chart trace: its legend name, line colour, x values and y values. */
  datatype Series = Series(name: string, color: string, times: seq<int>, areas: seq<real>)

  /** `process_image`: the band counts of the frame at `url`, or None when it could not be fetched. */
  method ProcessImage(fetch: Fetcher, url: string) returns (counts: Option<seq<nat>>)
    ensures counts.None? <==> fetch(url).None?
    ensures counts.Some? ==> |counts.value| == NumBands
    ensures counts.Some? ==> forall k :: 0 <= k < NumBands ==>
      counts.value[k] == CountMatching(Pixels(fetch(url).value), TableRgb[k], Tolerance)
    ensures counts.Some? ==> counts.value == BandCounts(fetch(url).value, TableRgb, Tolerance)
  {
    var img := fetch(url);
    if img.None? {
      return None;
    }
    var c := CountColorPixels(img.value, TableRgb, Tolerance);
    assert c == BandCounts(img.value, TableRgb, Tolerance);
    counts := Some(c);
  }

  /** What `process_image` yields for the frame of instant `t`. */
  ghost function FrameCounts(fetch: Fetcher, t: int): (r: Option<seq<nat>>)
    ensures r.Some? ==> |r.value| == NumBands
  {
    if !Representable(t) then None
    else
      match fetch(Url(BaseUrl, t))
      case None => None
      case Some(img) => Some(BandCounts(img, TableRgb, Tolerance))
  }

  /**
   * Lines 88-99 without the drawing: one series per band, in band order,
   * named `<band> mm/hr` and coloured as in the table, plotting the band's
   * areas against the kept timestamps. None where NumPy raises, when no
   * sample was kept.
   */
  method BuildSeries(valid: seq<seq<nat>>, times: seq<int>) returns (data: Option<seq<Series>>)
    requires forall k :: 0 <= k < |valid| ==> |valid[k]| == NumBands
    ensures data.None? <==> valid == []
    ensures data.Some? ==> |data.value| == NumBands
    ensures data.Some? ==> forall i :: 0 <= i < NumBands ==>
      && data.value[i].name == Bands[i].rate + " mm/hr"
      && data.value[i].color == Bands[i].hex
      && data.value[i].times == times
      && Some(data.value[i].areas) == AreaSeries(valid, i)
  {
    if valid == [] {
      return None;
    }
    var traces: seq<Series> := [];
    for i := 0 to NumBands
      invariant |traces| == i
      invariant forall j :: 0 <= j < i ==>
        traces[j] == Series(Bands[j].rate + " mm/hr", Bands[j].hex, times, AreaSeries(valid, j).value)
    {
      var areas := AreaSeries(valid, i).value;
      traces := traces + [Series(Bands[i].rate + " mm/hr", Bands[i].hex, times, areas)];
    }
    data := Some(traces);
  }

  /** Every generated timestamp is a whole-minute instant that `datetime` can hold. */
  lemma SlotsRepresentable(now: int, t: int)
    requires now >= 7200 && Representable(now)
    requires IsSlot(now, t)
    ensures Representable(t) && t % 60 == 0
  {
    assert TopOfHour(now) >= 7200;
    YearMonotone(t, now);
  }

  /**
   * `plot_timeline` up to the chart: no chart when every frame failed;
   * otherwise sixteen series, each over the newest-first timestamps of the
   * frames that were fetched, each value the band's area of that frame with
   * the noise floor applied.
   */
  method PlotTimeline(now: int, fetch: Fetcher) returns (plot: Option<seq<Series>>)
    requires now >= 7200 && Representable(now)
    ensures plot.None? <==> forall t :: IsSlot(now, t) ==> FrameCounts(fetch, t).None?
    ensures plot.Some? ==> |plot.value| == NumBands
    ensures plot.Some? ==> forall i :: 0 <= i < NumBands ==>
      && plot.value[i].name == Bands[i].rate + " mm/hr"
      && plot.value[i].color == Bands[i].hex
      && StrictlyDescending(plot.value[i].times)
      && (forall t :: t in plot.value[i].times <==> IsSlot(now, t) && FrameCounts(fetch, t).Some?)
    ensures plot.Some? ==> forall i :: 0 <= i < NumBands ==>
      && |plot.value[i].areas| == |plot.value[i].times|
      && forall k :: 0 <= k < |plot.value[i].times| ==>
           |FrameCounts(fetch, plot.value[i].times[k]).value| == NumBands &&
           plot.value[i].areas[k] == Suppress(Area(FrameCounts(fetch, plot.value[i].times[k]).value[i]))
  {
    var ts := GenerateTimestamps(now);
    forall i | 0 <= i < |ts| ensures Representable(ts[i]) {
      assert ts[i] in ts;
      SlotsRepresentable(now, ts[i]);
    }
    var results := FetchFrames(fetch, ts);
    KeptFrames(now, fetch, ts, results);
    var valid, kept := ValidCounts(results), ValidTimestamps(results, ts);
    plot := BuildSeries(valid, kept);
    SeriesOfFrames(now, fetch, valid, kept, plot);
  }

  /** Fetches and classifies every timestamp in order, keeping a failure as None. */
  method FetchFrames(fetch: Fetcher, ts: seq<int>) returns (results: seq<Option<seq<nat>>>)
    requires forall i :: 0 <= i < |ts| ==> Representable(ts[i])
    ensures |results| == |ts|
    ensures forall k :: 0 <= k < |ts| ==> results[k] == FrameCounts(fetch, ts[k])
  {
    var urls := FrameUrls(BaseUrl, ts);
    results := [];
    for i := 0 to |urls|
      invariant |results| == i
      invariant forall k :: 0 <= k < i ==> results[k] == FrameCounts(fetch, ts[k])
    {
      var r := ProcessImage(fetch, urls[i]);
      AppendFrame(fetch, ts, results, r);
      results := results + [r];
    }
  }

  /** Appending the next frame's result keeps the prefix correspondence. */
  lemma AppendFrame(fetch: Fetcher, ts: seq<int>, results: seq<Option<seq<nat>>>, r: Option<seq<nat>>)
    requires |results| < |ts|
    requires forall k :: 0 <= k < |results| ==> results[k] == FrameCounts(fetch, ts[k])
    requires r == FrameCounts(fetch, ts[|results|])
    ensures forall k :: 0 <= k < |results| + 1 ==> (results + [r])[k] == FrameCounts(fetch, ts[k])
  {
  }

  /** The series BuildSeries makes from the kept frames are the frames' band areas. */
  lemma SeriesOfFrames(now: int, fetch: Fetcher, valid: seq<seq<nat>>, kept: seq<int>, plot: Option<seq<Series>>)
    requires valid == [] <==> forall t :: IsSlot(now, t) ==> FrameCounts(fetch, t).None?
    requires StrictlyDescending(kept)
    requires forall t :: t in kept <==> IsSlot(now, t) && FrameCounts(fetch, t).Some?
    requires |valid| == |kept|
    requires forall k :: 0 <= k < |valid| ==> FrameCounts(fetch, kept[k]) == Some(valid[k])
    requires forall k :: 0 <= k < |valid| ==> |valid[k]| == NumBands
    requires plot.None? <==> valid == []
    requires plot.Some? ==> |plot.value| == NumBands
    requires plot.Some? ==> forall i :: 0 <= i < NumBands ==>
      && plot.value[i].name == Bands[i].rate + " mm/hr"
      && plot.value[i].times == kept
      && Some(plot.value[i].areas) == AreaSeries(valid, i)
    ensures plot.None? <==> forall t :: IsSlot(now, t) ==> FrameCounts(fetch, t).None?
    ensures plot.Some? ==> forall i :: 0 <= i < NumBands ==>
      && |plot.value[i].areas| == |plot.value[i].times|
      && forall k :: 0 <= k < |plot.value[i].times| ==>
           |FrameCounts(fetch, plot.value[i].times[k]).value| == NumBands &&
           plot.value[i].areas[k] == Suppress(Area(FrameCounts(fetch, plot.value[i].times[k]).value[i]))
  {
  }

  /** What survives the filtering of lines 83-85, in terms of the frames themselves. */
  lemma KeptFrames(now: int, fetch: Fetcher, ts: seq<int>, results: seq<Option<seq<nat>>>)
    requires forall t :: t in ts <==> IsSlot(now, t)
    requires StrictlyDescending(ts)
    requires |results| == |ts|
    requires forall k :: 0 <= k < |ts| ==> results[k] == FrameCounts(fetch, ts[k])
    ensures ValidCounts(results) == [] <==> forall t :: IsSlot(now, t) ==> FrameCounts(fetch, t).None?
    ensures StrictlyDescending(ValidTimestamps(results, ts))
    ensures forall t :: t in ValidTimestamps(results, ts) <==> IsSlot(now, t) && FrameCounts(fetch, t).Some?
    ensures |ValidCounts(results)| == |ValidTimestamps(results, ts)|
    ensures forall k :: 0 <= k < |ValidCounts(results)| ==>
      FrameCounts(fetch, ValidTimestamps(results, ts)[k]) == Some(ValidCounts(results)[k])
    ensures forall k :: 0 <= k < |ValidCounts(results)| ==> |ValidCounts(results)[k]| == NumBands
  {
    var valid := ValidCounts(results);
    var kept := ValidTimestamps(results, ts);
    FilterAligned(results, ts);
    KeptTimestampsDescending(results, ts);
    ValidCountsWidth(results, NumBands);
    forall t ensures t in kept <==> IsSlot(now, t) && FrameCounts(fetch, t).Some? {
      KeptTimestamps(results, ts, t);
    }
    if valid == [] {
      forall t | IsSlot(now, t) ensures FrameCounts(fetch, t).None? {
        assert t !in kept;
      }
    } else {
      assert kept[0] in kept;
    }
  }
}
