/**
 * The fetch URL of one radar frame (timeline.py, lines 80-81): the fixed base,
 * the timestamp as `strftime("%Y%m%d%H%M")` (zero-padded fields, no
 * separators) and the suffix `.jpg`.
 */
module Urls {
  import opened Calendar

  const BaseUrl: string := "https://www.hko.gov.hk/wxinfo/radars/rad_064_png/2d064nradar_"

  const Suffix: string := ".jpg"

  function Pow10(n: nat): nat
  {
    if n == 0 then 1 else 10 * Pow10(n - 1)
  }

  predicate IsDigit(c: char)
  {
    '0' <= c <= '9'
  }

  /** The last `width` decimal digits of `n`, zero-padded on the left. */
  function Digits(n: nat, width: nat): (s: string)
    ensures |s| == width
    ensures forall i :: 0 <= i < |s| ==> IsDigit(s[i])
  {
    if width == 0 then [] else Digits(n / 10, width - 1) + [('0' as int + n % 10) as char]
  }

  /** The number a string of decimal digits spells. */
  function DigitsValue(s: string): int
  {
    if s == [] then 0 else 10 * DigitsValue(s[..|s| - 1]) + (s[|s| - 1] as int - '0' as int)
  }

  /** Zero-padding to `width` digits loses nothing when the number has at most `width` digits. */
  lemma {:induction false} DigitsRoundTrip(n: nat, width: nat)
    requires n < Pow10(width)
    ensures DigitsValue(Digits(n, width)) == n
  {
    if width > 0 {
      var s := Digits(n, width);
      DigitsRoundTrip(n / 10, width - 1);
      assert s[..|s| - 1] == Digits(n / 10, width - 1);
    }
  }

  /** The fields of a civil time that `%Y%m%d%H%M` writes, each in its printable range. */
  predicate Printable(d: DateTime)
  {
    1 <= d.year <= 9999 && 1 <= d.month <= 12 && 1 <= d.day <= 31 && 0 <= d.hour < 24 && 0 <= d.minute < 60
  }

  /** `strftime("%Y%m%d%H%M")`. */
  function Stamp(d: DateTime): (s: string)
    requires Printable(d)
    ensures |s| == 12
    ensures forall i :: 0 <= i < 12 ==> IsDigit(s[i])
  {
    Digits(d.year, 4) + Digits(d.month, 2) + Digits(d.day, 2) + Digits(d.hour, 2) + Digits(d.minute, 2)
  }

  /** Reads the year, month, day, hour and minute back from a stamp. */
  function ParseStamp(s: string): (f: (int, int, int, int, int))
    requires |s| == 12
  {
    (DigitsValue(s[..4]), DigitsValue(s[4..6]), DigitsValue(s[6..8]), DigitsValue(s[8..10]), DigitsValue(s[10..]))
  }

  lemma StampRoundTrip(d: DateTime)
    requires Printable(d)
    ensures ParseStamp(Stamp(d)) == (d.year, d.month, d.day, d.hour, d.minute)
  {
    var s := Stamp(d);
    assert s[..4] == Digits(d.year, 4);
    assert s[4..6] == Digits(d.month, 2);
    assert s[6..8] == Digits(d.day, 2);
    assert s[8..10] == Digits(d.hour, 2);
    assert s[10..] == Digits(d.minute, 2);
    assert Pow10(2) == 100 && Pow10(4) == 10000;
    DigitsRoundTrip(d.year, 4);
    DigitsRoundTrip(d.month, 2);
    DigitsRoundTrip(d.day, 2);
    DigitsRoundTrip(d.hour, 2);
    DigitsRoundTrip(d.minute, 2);
  }

  /** The example of the radar archive: 2024-03-01 12:30 is written `202403011230`. */
  lemma StampExample()
    ensures Stamp(DateTime(2024, 3, 1, 12, 30, 0)) == "202403011230"
  {
  }

  /** An instant that `datetime` can hold, so that its year has at most four digits. */
  predicate Representable(t: int)
  {
    t >= 0 && FromInstant(t).year <= 9999
  }

  /** The URL of the frame at instant `t`. */
  function Url(base: string, t: int): (u: string)
    requires Representable(t)
    ensures |u| == |base| + 16
    ensures u[..|base|] == base && u[|base| + 12..] == Suffix
    ensures forall i :: |base| <= i < |base| + 12 ==> IsDigit(u[i])
  {
    base + Stamp(FromInstant(t)) + Suffix
  }

  /** The stamp inside a URL, read back: the civil time of the instant, to the minute. */
  lemma UrlRoundTrip(base: string, t: int)
    requires Representable(t)
    ensures ParseStamp(Url(base, t)[|base|..|base| + 12]) ==
      (FromInstant(t).year, FromInstant(t).month, FromInstant(t).day, FromInstant(t).hour, FromInstant(t).minute)
  {
    var u := Url(base, t);
    assert u[|base|..|base| + 12] == Stamp(FromInstant(t));
    StampRoundTrip(FromInstant(t));
  }

  /** Two whole-minute instants with the same URL are the same instant. */
  lemma UrlInjective(base: string, t: int, u: int)
    requires Representable(t) && Representable(u)
    requires t % 60 == 0 && u % 60 == 0
    requires Url(base, t) == Url(base, u)
    ensures t == u
  {
    UrlRoundTrip(base, t);
    UrlRoundTrip(base, u);
    FromInstantInjective(t, u);
  }

  /** The list comprehension of line 81: one URL per timestamp, in timestamp order. */
  function FrameUrls(base: string, ts: seq<int>): (urls: seq<string>)
    requires forall i :: 0 <= i < |ts| ==> Representable(ts[i])
    ensures |urls| == |ts|
    ensures forall i :: 0 <= i < |ts| ==> urls[i] == Url(base, ts[i])
  {
    seq(|ts|, i requires 0 <= i < |ts| => Url(base, ts[i]))
  }

  /** Distinct whole-minute timestamps give distinct URLs. */
  lemma UrlsDistinct(base: string, ts: seq<int>)
    requires forall i :: 0 <= i < |ts| ==> Representable(ts[i]) && ts[i] % 60 == 0
    requires forall i, j :: 0 <= i < j < |ts| ==> ts[i] != ts[j]
    ensures forall i, j :: 0 <= i < j < |ts| ==> FrameUrls(base, ts)[i] != FrameUrls(base, ts)[j]
  {
    forall i, j | 0 <= i < j < |ts| ensures FrameUrls(base, ts)[i] != FrameUrls(base, ts)[j] {
      if FrameUrls(base, ts)[i] == FrameUrls(base, ts)[j] {
        UrlInjective(base, ts[i], ts[j]);
      }
    }
  }
}
