/**
 * Pixel classification by colour proximity: `count_color_pixels` and
 * `extract_color_pixels` (timeline.py, lines 29-44). A pixel matches a band
 * when each of its first three channels is within an inclusive tolerance of the
 * band's reference colour; a fourth (alpha) channel is ignored. Matching is not
 * exclusive: a pixel close to several bands counts for each of them.
 */
module Classify {
  import opened Palette

  /** One RGBA pixel of the decoded, cropped radar image. */
  datatype Pixel = Pixel(r: Byte, g: Byte, b: Byte, a: Byte)

  /** A pixel grid, row by row. */
  type Image = seq<seq<Pixel>>

  /** The exact absolute difference (the channel difference is taken in 64-bit integers). */
  function Diff(x: int, y: int): nat
  {
    if x >= y then x - y else y - x
  }

  /**
   * `np.all(np.abs(p[:3] - colour) <= tolerance)`: each of the three colour
   * channels lies in the closed interval of width `2 * tol` around the colour's.
   */
  predicate Matches(p: Pixel, c: Rgb, tol: int)
    ensures Matches(p, c, tol) <==>
      && c.r - tol <= p.r <= c.r + tol
      && c.g - tol <= p.g <= c.g + tol
      && c.b - tol <= p.b <= c.b + tol
  {
    Diff(p.r, c.r) <= tol && Diff(p.g, c.g) <= tol && Diff(p.b, c.b) <= tol
  }

  /** The mask value after OR-ing the matches against every colour in `colors`. */
  function MatchesAny(p: Pixel, colors: seq<Rgb>, tol: int): (m: bool)
    ensures m <==> exists k :: 0 <= k < |colors| && Matches(p, colors[k], tol)
  {
    if colors == [] then false
    else
      var front := colors[..|colors| - 1];
      var m := MatchesAny(p, front, tol) || Matches(p, colors[|colors| - 1], tol);
      assert MatchesAny(p, front, tol) ==> exists k :: 0 <= k < |colors| && Matches(p, colors[k], tol) by {
        if MatchesAny(p, front, tol) {
          var k :| 0 <= k < |front| && Matches(p, front[k], tol);
          assert colors[k] == front[k];
        }
      }
      assert (exists k :: 0 <= k < |colors| && Matches(p, colors[k], tol)) ==> m by {
        if k :| 0 <= k < |colors| && Matches(p, colors[k], tol) {
          if k < |front| {
            assert front[k] == colors[k];
          }
        }
      }
      m
  }

  /** The pixels of the image, row after row. */
  function Pixels(img: Image): (ps: seq<Pixel>)
  {
    if img == [] then [] else Pixels(img[..|img| - 1]) + img[|img| - 1]
  }

  /** The number of pixels of `ps` matching `c`: `np.sum(mask)` for one band. */
  function CountMatching(ps: seq<Pixel>, c: Rgb, tol: int): (n: nat)
    ensures n <= |ps|
  {
    if ps == [] then 0
    else CountMatching(ps[..|ps| - 1], c, tol) + (if Matches(ps[|ps| - 1], c, tol) then 1 else 0)
  }

  /** The number of pixels of `ps` matching at least one colour: the true cells of the OR-ed mask. */
  function CountMatchingAny(ps: seq<Pixel>, colors: seq<Rgb>, tol: int): (n: nat)
    ensures n <= |ps|
  {
    if ps == [] then 0
    else CountMatchingAny(ps[..|ps| - 1], colors, tol) + (if MatchesAny(ps[|ps| - 1], colors, tol) then 1 else 0)
  }

  /** The per-band count vector, one entry per colour in colour order. */
  function BandCounts(img: Image, colors: seq<Rgb>, tol: int): (counts: seq<nat>)
    ensures |counts| == |colors|
    ensures forall k :: 0 <= k < |colors| ==> counts[k] <= |Pixels(img)|
  {
    seq(|colors|, k requires 0 <= k < |colors| => CountMatching(Pixels(img), colors[k], tol))
  }

  /** `count_color_pixels`: one count per band, appended in band order. */
  method CountColorPixels(img: Image, colors: seq<Rgb>, tol: int) returns (counts: seq<nat>)
    ensures |counts| == |colors|
    ensures forall k :: 0 <= k < |colors| ==> counts[k] == CountMatching(Pixels(img), colors[k], tol)
    ensures forall k :: 0 <= k < |colors| ==> counts[k] <= |Pixels(img)|
  {
    counts := [];
    var ps := Pixels(img);
    for k := 0 to |colors|
      invariant |counts| == k
      invariant forall j :: 0 <= j < k ==> counts[j] == CountMatching(ps, colors[j], tol)
    {
      counts := counts + [CountMatching(ps, colors[k], tol)];
    }
  }

  /** Every row of the image has the same width, as in a NumPy array. */
  predicate Rectangular(img: Image)
  {
    forall i, j :: 0 <= i < |img| && 0 <= j < |img| ==> |img[i]| == |img[j]|
  }

  /** The second entry of `shape[:2]`: the common row length of a rectangular image. */
  function Width(img: Image): (w: nat)
    ensures Rectangular(img) ==> forall i :: 0 <= i < |img| ==> |img[i]| == w
  {
    if img == [] then 0 else |img[0]|
  }

  /**
   * `extract_color_pixels`: a zero mask of the image's shape, OR-ed in place
   * with each band's match mask in turn.
   */
  method ExtractColorPixels(img: Image, colors: seq<Rgb>, tol: int) returns (mask: array2<bool>)
    requires Rectangular(img)
    ensures fresh(mask)
    ensures mask.Length0 == |img| && mask.Length1 == Width(img)
    ensures forall i, j :: 0 <= i < mask.Length0 && 0 <= j < mask.Length1 ==>
      mask[i, j] == MatchesAny(img[i][j], colors, tol)
  {
    mask := new bool[|img|, Width(img)]((i, j) => false);
    for k := 0 to |colors|
      invariant forall i, j :: 0 <= i < mask.Length0 && 0 <= j < mask.Length1 ==>
        mask[i, j] == MatchesAny(img[i][j], colors[..k], tol)
    {
      assert colors[..k + 1][..k] == colors[..k];
      forall i, j | 0 <= i < mask.Length0 && 0 <= j < mask.Length1 {
        mask[i, j] := mask[i, j] || Matches(img[i][j], colors[k], tol);
      }
    }
    assert colors[..|colors|] == colors;
  }

  // ---------------------------------------------------------------------------
  // The number of true cells of a mask

  ghost function MaskRowCount(m: array2<bool>, i: nat, j: nat): nat
    reads m
    requires i < m.Length0 && j <= m.Length1
  {
    if j == 0 then 0 else MaskRowCount(m, i, j - 1) + (if m[i, j - 1] then 1 else 0)
  }

  /** The number of true cells in the first `rows` rows of `m`. */
  ghost function MaskCount(m: array2<bool>, rows: nat): nat
    reads m
    requires rows <= m.Length0
  {
    if rows == 0 then 0 else MaskCount(m, rows - 1) + MaskRowCount(m, rows - 1, m.Length1)
  }

  // ---------------------------------------------------------------------------
  // Properties of matching

  /**
   * The tolerance is inclusive, in every channel and on both sides of the
   * colour: every channel within `tol` (some of them at exactly `tol`)
   * still matches, and a single channel `tol + 1` away, above or below, does not.
   */
  lemma ToleranceIsInclusive(p: Pixel, c: Rgb, tol: int)
    ensures Diff(p.r, c.r) <= tol && Diff(p.g, c.g) <= tol && Diff(p.b, c.b) <= tol ==> Matches(p, c, tol)
    ensures Diff(p.r, c.r) == tol + 1 || Diff(p.g, c.g) == tol + 1 || Diff(p.b, c.b) == tol + 1 ==> !Matches(p, c, tol)
  {
  }

  /** The alpha channel plays no part in matching. */
  lemma AlphaIgnored(p: Pixel, alpha: Byte, c: Rgb, tol: int)
    ensures Matches(p.(a := alpha), c, tol) == Matches(p, c, tol)
  {
  }

  /** The mask depends only on which colours are listed, not on their order or repetition. */
  lemma MaskOrderIndependent(p: Pixel, colors: seq<Rgb>, others: seq<Rgb>, tol: int)
    requires forall c :: c in colors <==> c in others
    ensures MatchesAny(p, colors, tol) == MatchesAny(p, others, tol)
  {
    if MatchesAny(p, colors, tol) {
      var k :| 0 <= k < |colors| && Matches(p, colors[k], tol);
      assert colors[k] in others;
      var k' :| 0 <= k' < |others| && others[k'] == colors[k];
    }
    if MatchesAny(p, others, tol) {
      var k :| 0 <= k < |others| && Matches(p, others[k], tol);
      assert others[k] in colors;
      var k' :| 0 <= k' < |colors| && colors[k'] == others[k];
    }
  }

  // ---------------------------------------------------------------------------
  // Properties of the counts

  lemma {:induction false} CountMatchingAnyAppend(xs: seq<Pixel>, ys: seq<Pixel>, colors: seq<Rgb>, tol: int)
    ensures CountMatchingAny(xs + ys, colors, tol) == CountMatchingAny(xs, colors, tol) + CountMatchingAny(ys, colors, tol)
  {
    if ys != [] {
      assert (xs + ys)[..|xs + ys| - 1] == xs + ys[..|ys| - 1];
      assert (xs + ys)[|xs + ys| - 1] == ys[|ys| - 1];
      CountMatchingAnyAppend(xs, ys[..|ys| - 1], colors, tol);
    } else {
      assert xs + ys == xs;
    }
  }

  lemma {:induction false} CountMatchingAppend(xs: seq<Pixel>, ys: seq<Pixel>, c: Rgb, tol: int)
    ensures CountMatching(xs + ys, c, tol) == CountMatching(xs, c, tol) + CountMatching(ys, c, tol)
  {
    if ys != [] {
      assert (xs + ys)[..|xs + ys| - 1] == xs + ys[..|ys| - 1];
      assert (xs + ys)[|xs + ys| - 1] == ys[|ys| - 1];
      CountMatchingAppend(xs, ys[..|ys| - 1], c, tol);
    } else {
      assert xs + ys == xs;
    }
  }

  /** A rectangular image has exactly height times width pixels, which bounds every count. */
  lemma {:induction false} PixelCount(img: Image)
    requires Rectangular(img)
    ensures |Pixels(img)| == |img| * Width(img)
  {
    if img != [] {
      var front := img[..|img| - 1];
      assert Rectangular(front);
      PixelCount(front);
      assert front != [] ==> Width(front) == Width(img);
      assert |img[|img| - 1]| == Width(img);
      assert |Pixels(img)| == |Pixels(front)| + Width(img);
      assert (|img| - 1) * Width(img) + Width(img) == |img| * Width(img);
    }
  }

  /** The pixels of an image with one more row are its pixels followed by that row. */
  lemma PixelsAddRow(img: Image, row: seq<Pixel>)
    ensures Pixels(img + [row]) == Pixels(img) + row
  {
    assert (img + [row])[..|img|] == img;
  }

  /**
   * Classification is not exclusive: a pixel added to the image raises the
   * count of every band it matches by one, whatever the other bands do.
   */
  lemma NotExclusive(img: Image, p: Pixel, colors: seq<Rgb>, tol: int, k: nat)
    requires k < |colors|
    ensures BandCounts(img + [[p]], colors, tol)[k] ==
      BandCounts(img, colors, tol)[k] + (if Matches(p, colors[k], tol) then 1 else 0)
  {
    PixelsAddRow(img, [p]);
    CountMatchingAppend(Pixels(img), [p], colors[k], tol);
  }

  /** The two greens "7-10" (band 9) and "5-7" (band 10) of the table match the very same pixel. */
  lemma OverlappingGreens()
    ensures Matches(Pixel(1, 249, 8, 255), TableRgb[9], 30)
    ensures Matches(Pixel(1, 249, 8, 255), TableRgb[10], 30)
    ensures BandCounts([[Pixel(1, 249, 8, 255)]], TableRgb, 30)[9] == 1
    ensures BandCounts([[Pixel(1, 249, 8, 255)]], TableRgb, 30)[10] == 1
  {
    var p := Pixel(1, 249, 8, 255);
    NotExclusive([], p, TableRgb, 30, 9);
    NotExclusive([], p, TableRgb, 30, 10);
  }

  /** Each band's count is at most the mask's true-count. */
  lemma {:induction false} BandCountAtMostAny(ps: seq<Pixel>, colors: seq<Rgb>, tol: int, k: nat)
    requires k < |colors|
    ensures CountMatching(ps, colors[k], tol) <= CountMatchingAny(ps, colors, tol)
  {
    if ps != [] {
      BandCountAtMostAny(ps[..|ps| - 1], colors, tol, k);
    }
  }

  /** Matching any of `colors` is matching any of all but the last, or the last. */
  lemma {:induction false} AnyUnionBound(ps: seq<Pixel>, colors: seq<Rgb>, tol: int)
    requires colors != []
    ensures CountMatchingAny(ps, colors, tol) <=
      CountMatchingAny(ps, colors[..|colors| - 1], tol) + CountMatching(ps, colors[|colors| - 1], tol)
  {
    if ps != [] {
      AnyUnionBound(ps[..|ps| - 1], colors, tol);
    }
  }

  function Sum(xs: seq<nat>): nat
  {
    if xs == [] then 0 else Sum(xs[..|xs| - 1]) + xs[|xs| - 1]
  }

  /** The mask's true-count is at most the sum of the band counts. */
  lemma {:induction false} AnyAtMostSum(img: Image, colors: seq<Rgb>, tol: int)
    ensures CountMatchingAny(Pixels(img), colors, tol) <= Sum(BandCounts(img, colors, tol))
  {
    var ps := Pixels(img);
    if colors == [] {
      if ps != [] {
        assert forall q: seq<Pixel> :: CountMatchingAny(q, [], tol) == 0 by {
          forall q: seq<Pixel> ensures CountMatchingAny(q, [], tol) == 0 {
            NoColoursNoMatch(q, tol);
          }
        }
      }
    } else {
      var front := colors[..|colors| - 1];
      AnyUnionBound(ps, colors, tol);
      AnyAtMostSum(img, front, tol);
      assert BandCounts(img, colors, tol)[..|colors| - 1] == BandCounts(img, front, tol);
    }
  }

  lemma {:induction false} NoColoursNoMatch(ps: seq<Pixel>, tol: int)
    ensures CountMatchingAny(ps, [], tol) == 0
  {
    if ps != [] {
      NoColoursNoMatch(ps[..|ps| - 1], tol);
    }
  }

  /**
   * The mask's true-count lies between the largest band count and the sum of
   * all band counts.
   */
  lemma MaskBetweenMaxAndSum(img: Image, colors: seq<Rgb>, tol: int)
    ensures forall k :: 0 <= k < |colors| ==>
      BandCounts(img, colors, tol)[k] <= CountMatchingAny(Pixels(img), colors, tol)
    ensures CountMatchingAny(Pixels(img), colors, tol) <= Sum(BandCounts(img, colors, tol))
  {
    forall k | 0 <= k < |colors|
      ensures BandCounts(img, colors, tol)[k] <= CountMatchingAny(Pixels(img), colors, tol)
    {
      BandCountAtMostAny(Pixels(img), colors, tol, k);
    }
    AnyAtMostSum(img, colors, tol);
  }

  /** An all-black image matches no band that has a channel above the tolerance. */
  lemma {:induction false} BlackMatchesNothing(ps: seq<Pixel>, c: Rgb, tol: int)
    requires forall i :: 0 <= i < |ps| ==> ps[i].r == 0 && ps[i].g == 0 && ps[i].b == 0
    requires c.r > tol || c.g > tol || c.b > tol
    ensures CountMatching(ps, c, tol) == 0
  {
    if ps != [] {
      BlackMatchesNothing(ps[..|ps| - 1], c, tol);
    }
  }

  /** The true cells of the mask that ExtractColorPixels returns are the pixels matching some band. */
  lemma MaskCountIsAnyCount(img: Image, colors: seq<Rgb>, tol: int, m: array2<bool>)
    requires Rectangular(img)
    requires m.Length0 == |img| && m.Length1 == Width(img)
    requires forall i, j :: 0 <= i < m.Length0 && 0 <= j < m.Length1 ==>
      m[i, j] == MatchesAny(img[i][j], colors, tol)
    ensures MaskCount(m, |img|) == CountMatchingAny(Pixels(img), colors, tol)
  {
    MaskPrefixCount(img, colors, tol, m, |img|);
    assert img[..|img|] == img;
  }

  lemma {:induction false} MaskPrefixCount(img: Image, colors: seq<Rgb>, tol: int, m: array2<bool>, rows: nat)
    requires Rectangular(img)
    requires m.Length0 == |img| && m.Length1 == Width(img)
    requires forall i, j :: 0 <= i < m.Length0 && 0 <= j < m.Length1 ==>
      m[i, j] == MatchesAny(img[i][j], colors, tol)
    requires rows <= |img|
    ensures MaskCount(m, rows) == CountMatchingAny(Pixels(img[..rows]), colors, tol)
  {
    if rows > 0 {
      MaskPrefixCount(img, colors, tol, m, rows - 1);
      assert img[..rows][..rows - 1] == img[..rows - 1];
      CountMatchingAnyAppend(Pixels(img[..rows - 1]), img[rows - 1], colors, tol);
      MaskRowIsAnyCount(img, colors, tol, m, rows - 1, m.Length1);
      assert img[rows - 1][..m.Length1] == img[rows - 1];
    }
  }

  lemma {:induction false} MaskRowIsAnyCount(img: Image, colors: seq<Rgb>, tol: int, m: array2<bool>, i: nat, j: nat)
    requires Rectangular(img)
    requires m.Length0 == |img| && m.Length1 == Width(img)
    requires forall i, j :: 0 <= i < m.Length0 && 0 <= j < m.Length1 ==>
      m[i, j] == MatchesAny(img[i][j], colors, tol)
    requires i < |img| && j <= m.Length1
    ensures MaskRowCount(m, i, j) == CountMatchingAny(img[i][..j], colors, tol)
  {
    if j > 0 {
      MaskRowIsAnyCount(img, colors, tol, m, i, j - 1);
      assert img[i][..j][..j - 1] == img[i][..j - 1];
    }
  }
}
