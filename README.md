# HKO radar rain-area timeline, modelled in Dafny

`timeline.py` draws a chart of how much ground each rain-rate band covers
over the last few hours. It reads the Hong Kong Observatory's 64 km radar
frames, taken every six minutes. For each frame it:

1. builds the frame's URL from its timestamp (base URL + `YYYYMMDDHHMM` + `.jpg`);
2. fetches the image and crops it to 320x400;
3. counts, for each of the sixteen palette colours, the pixels whose red,
   green and blue channels are all within 30 of that colour;
4. drops the frames that failed, turns the counts into square kilometres
   (dividing by 1765.2936237 pixels per km²), and sets values below 0.45 km²
   to 0.

This project models that pipeline and proves these facts about it:

- the palette decodes to the sixteen expected colours;
- the classifier's tolerance is inclusive, and it ignores alpha;
- a pixel can count towards two bands at once;
- the combined mask counts between the largest band count and the sum of all bands' counts;
- the generated timestamps are exactly the six-minute marks of the current
  and two previous hours that are not in the future, newest first and without duplicates;
- the URLs are well formed and distinct, and the time can be read back from them;
- the kept counts and kept timestamps stay paired;
- the noise floor keeps a count exactly when it is at least 795 pixels.

Modules, one per concern of the program:

- `Wrappers`: the `Option` type.
- `Palette`: the colour table and `#rrggbb` decoding (lines 8-27).
- `Classify`: pixel matching, `count_color_pixels` and `extract_color_pixels` (lines 29-44).
- `Timestamps`: timestamp generation and the newest-first sort (lines 70-78).
- `Calendar`: the proleptic Gregorian civil date of an instant, which `strftime` prints.
- `Urls`: the `%Y%m%d%H%M` stamp and the frame URLs (lines 80-81).
- `Aggregate`: dropping failed frames, areas and the noise floor (lines 83-91).
- `Timeline`: `process_image` and `plot_timeline` put together (lines 46-99).

Instants are whole seconds on the Hong Kong (UTC+8) wall clock. They count
from 0001-01-01 00:00, the earliest time Python's `datetime` can hold.
Nothing the program compares depends on the fractional second of "now":
every candidate timestamp is a whole minute, so `T <= now` holds exactly
when `T <= floor(now)`.

## Model

| member | source | states |
|---|---|---|
| Palette.HexDigit | timeline.py:27 | a character is a hexadecimal digit of either case exactly when it has a value, and that value is below 16 |
| Palette.HexPair | timeline.py:27 | two characters decode to a byte exactly when both are hex digits, and the byte is 16·high + low |
| Palette.DecodeHex | timeline.py:27 | a colour string decodes only if it has at least seven characters; the channels come from the pairs at positions 1, 3 and 5; decoding fails exactly when the string is too short or some pair is not hexadecimal |
| Palette.DecodeEncode | timeline.py:27 | decoding the canonical `#rrggbb` spelling of any colour gives that colour back |
| Palette.DecodeTable | timeline.py:27 | the table decodes exactly when every entry does, keeping the table's order and length |
| Palette.TableDecodes | timeline.py:8-27 | the sixteen literal entries all decode, to the sixteen channel triples in TableRgb |
| Palette.EntriesDecode0 | timeline.py:9-12 | bands >300 to 100-150 decode to their triples |
| Palette.EntriesDecode1 | timeline.py:13-16 | bands 75-100 to 15-30 decode to their triples |
| Palette.EntriesDecode2 | timeline.py:17-20 | bands 10-15 to 3-5 decode to their triples |
| Palette.EntriesDecode3 | timeline.py:21-24 | bands 2-3 to 0.15-0.50 decode to their triples |
| Classify.Matches | timeline.py:33-34 | a pixel matches a colour exactly when each of its red, green and blue channels lies in the closed interval from the colour's channel minus `tol` to plus `tol` |
| Classify.MatchesAny | timeline.py:31-34 | the OR-ed mask is true for a pixel exactly when some colour of the list matches it |
| Classify.Width | timeline.py:30 | for a rectangular image, every row has this length, the second entry of `shape[:2]` |
| Classify.CountMatching | timeline.py:41-43 | a band's count never exceeds the number of pixels |
| Classify.CountMatchingAny | timeline.py:31-35 | the number of pixels the combined mask sets never exceeds the number of pixels |
| Classify.BandCounts | timeline.py:37-44 | one count per colour, each at most the number of pixels |
| Classify.CountColorPixels | timeline.py:37-44 | the loop returns one count per colour, in colour order; the k-th count is the number of pixels within tolerance of colour k, and no count exceeds the number of pixels |
| Classify.ExtractColorPixels | timeline.py:29-35 | a fresh boolean grid the shape of the image; a cell is true exactly when its pixel is within tolerance of at least one colour |
| Classify.ToleranceIsInclusive | timeline.py:33-34 | for any pixel and colour, in every channel and on both sides: all three channels within `tol` (some at exactly `tol`) match, and any channel `tol + 1` away does not |
| Classify.AlphaIgnored | timeline.py:33 | changing a pixel's alpha never changes whether it matches |
| Classify.MaskOrderIndependent | timeline.py:31-34 | the mask depends only on the set of colours, not on their order or repetition |
| Classify.CountMatchingAppend | timeline.py:43 | counting is additive over concatenated pixel lists |
| Classify.CountMatchingAnyAppend | timeline.py:34 | mask counting is additive over concatenated pixel lists |
| Classify.PixelCount | timeline.py:30 | a rectangular image has height × width pixels |
| Classify.PixelsAddRow | timeline.py:41 | adding a row adds exactly that row's pixels, after the others |
| Classify.NotExclusive | timeline.py:39-43 | adding a pixel raises a band's count by one exactly when the pixel matches that band, whatever the other bands do |
| Classify.OverlappingGreens | timeline.py:18-19 | the pixel (1, 249, 8) matches both the 7-10 and 5-7 bands and is counted in each |
| Classify.BandCountAtMostAny | timeline.py:31-43 | every band's count is at most the mask's count |
| Classify.AnyUnionBound | timeline.py:31-34 | the mask's count is at most the mask count of all but the last colour plus the last colour's count |
| Classify.AnyAtMostSum | timeline.py:31-44 | the mask's count is at most the sum of the band counts |
| Classify.NoColoursNoMatch | timeline.py:30 | with no colours the mask stays all false |
| Classify.MaskBetweenMaxAndSum | timeline.py:29-44 | the mask's count lies between each band's count and the sum of all of them |
| Classify.BlackMatchesNothing | timeline.py:41-43 | black pixels count for no colour that has a channel above the tolerance |
| Classify.MaskCountIsAnyCount | timeline.py:29-35 | the number of true cells in a grid with the mask's contract equals the combined-mask count of the image |
| Classify.MaskPrefixCount | timeline.py:29-35 | the true cells in the first `rows` rows are the combined-mask count of those rows |
| Classify.MaskRowIsAnyCount | timeline.py:29-35 | the true cells in a row prefix are the combined-mask count of those pixels |
| Timestamps.Insert | timeline.py:78 | inserting adds exactly one occurrence of the element |
| Timestamps.SortDescending | timeline.py:78 | sorting is a permutation |
| Timestamps.InsertElements | timeline.py:78 | after an insertion every element is the inserted one or an old one |
| Timestamps.InsertKeepsOrder | timeline.py:78 | inserting into a newest-first list keeps it newest first |
| Timestamps.InsertKeepsStrictOrder | timeline.py:78 | inserting a new element into a strictly descending list keeps it strictly descending |
| Timestamps.SortOrders | timeline.py:78 | the sorted list is non-increasing, and strictly descending when the input has no duplicates |
| Timestamps.TopOfHour | timeline.py:73 | the top of the hour is no later than the instant and less than an hour before it |
| Timestamps.HourSlots | timeline.py:74-77 | the first k offsets of the inner loop append at most k timestamps |
| Timestamps.SlotWindow | timeline.py:70-78 | every candidate is a six-minute boundary, not after now, and no earlier than two hours before the top of now's hour |
| Timestamps.TopOfHourShift | timeline.py:73 | going back h hours and truncating to the hour equals truncating and then going back h hours; the result is on an hour boundary |
| Timestamps.MarksOfHour | timeline.py:74-75 | the instants `hour + minute` for minute in the interval list are exactly the grid instants whose hour is `hour` |
| Timestamps.HourSlotsMembers | timeline.py:74-77 | the inner loop keeps exactly the candidates of its hour that are not after now |
| Timestamps.HourSlotsAscending | timeline.py:74-77 | the inner loop appends in increasing time order |
| Timestamps.HourSlotsLength | timeline.py:74-77 | the first k offsets of the inner loop keep none for a future hour; otherwise they keep k, or, when fewer of them are not after now, (seconds from the hour to now)/360 + 1 |
| Timestamps.NoDuplicatesConcat | timeline.py:72-77 | two duplicate-free lists with no common element concatenate to a duplicate-free list |
| Timestamps.AppendedAre | timeline.py:70-77 | before sorting, the list holds exactly the six-minute marks of the current and two previous hours that are not after now, with no duplicates, and 21 + (minutes past the hour)/6 of them |
| Timestamps.AppendedThreeHours | timeline.py:72-77 | the outer loop appends the marks of the current hour, then of the hour before, then of the hour before that |
| Timestamps.ThreeHoursMembers | timeline.py:72-77 | the marks of the three hours are exactly the candidate instants |
| Timestamps.ThreeHoursNoDuplicates | timeline.py:72-77 | the marks of the three hours contain no duplicates |
| Timestamps.ThreeHoursLength | timeline.py:72-77 | there are 21 + (minutes past the hour)/6 marks in the three hours |
| Timestamps.AppendedMembers | timeline.py:70-77 | the list before sorting holds exactly the candidate instants |
| Timestamps.AppendedNoDuplicates | timeline.py:70-77 | the list before sorting has no duplicates |
| Timestamps.AppendedLength | timeline.py:70-77 | the list before sorting has 21 + (minutes past the hour)/6 entries |
| Timestamps.HourSlotsAt | timeline.py:74-77 | one instant is among an hour's marks exactly when it is an on-grid instant of that hour not after now |
| Timestamps.HourSlotsRange | timeline.py:74-75 | an hour's marks lie within that hour |
| Timestamps.IntervalsAreSixMinutesApart | timeline.py:70 | the minute offsets are 0, 6, …, 54 |
| Timestamps.OnGridIsBoundary | timeline.py:70-75 | every grid instant is a six-minute boundary |
| Timestamps.NewestSlot | timeline.py:70-77 | the newest candidate is now rounded down to six minutes |
| Timestamps.BoundaryIsSlot | timeline.py:70-77 | now rounded down to six minutes is a candidate |
| Timestamps.BoundaryNotAfter | timeline.py:76 | no six-minute boundary at or before now is later than now rounded down |
| Timestamps.SortedSlots | timeline.py:70-78 | after sorting: the same members, strictly newest first, the same length, and the rounded-down now first |
| Timestamps.GenerateTimestamps | timeline.py:70-78 | the nested loops and the sort yield exactly the candidate instants, strictly newest first; there are 21 + (minutes past the hour)/6 of them, at most 30, and the first is now rounded down to six minutes |
| Calendar.MonthsFillYear | timeline.py:81 | the twelve months fill the year exactly, in leap and common years |
| Calendar.YearOf | timeline.py:81 | splitting a day count gives a year and a day within it that add back to the same day count |
| Calendar.MonthOf | timeline.py:81 | splitting a day of the year gives a month and a day within it that add back to the same day of the year |
| Calendar.FromInstant | timeline.py:81 | every instant has a valid civil date and time, and its seconds are the instant's seconds within the minute |
| Calendar.SplitSecondsOfDay | timeline.py:81 | an instant is its days, hours, minutes and seconds added back together |
| Calendar.InstantRoundTrip | timeline.py:81 | converting an instant to a civil date and back gives the instant back |
| Calendar.FromInstantInjective | timeline.py:81 | different instants have different civil dates and times |
| Calendar.YearOfMonotone | timeline.py:81 | more days never give an earlier year |
| Calendar.YearMonotone | timeline.py:73-81 | a later instant never has an earlier year |
| Urls.Digits | timeline.py:81 | a zero-padded field has the requested width and only decimal digits |
| Urls.DigitsRoundTrip | timeline.py:81 | reading back a zero-padded field that fits gives the number back |
| Urls.Stamp | timeline.py:81 | the `%Y%m%d%H%M` stamp is twelve decimal digits |
| Urls.StampRoundTrip | timeline.py:81 | the stamp reads back as year, month, day, hour and minute |
| Urls.StampExample | timeline.py:81 | 2024-03-01 12:30 prints as `202403011230` |
| Urls.Url | timeline.py:80-81 | a URL is the base, then twelve digits, then `.jpg`, and is 16 characters longer than the base |
| Urls.UrlRoundTrip | timeline.py:81 | the digits of a URL read back as the civil date and time, to the minute, of its instant |
| Urls.UrlInjective | timeline.py:81 | two whole-minute instants with the same URL are the same instant |
| Urls.FrameUrls | timeline.py:81 | one URL per timestamp, in timestamp order |
| Urls.UrlsDistinct | timeline.py:81 | distinct whole-minute timestamps give distinct URLs, so no frame is fetched twice |
| Aggregate.SuccessIndices | timeline.py:84-85 | the positions of the successful samples, in increasing order, and all of them |
| Aggregate.ValidCounts | timeline.py:84 | filtering never yields more count vectors than there were results |
| Aggregate.KeepPaired | timeline.py:85 | filtering paired lists never yields more timestamps than there were |
| Aggregate.ValidTimestamps | timeline.py:85 | the zip-and-filter yields no more timestamps than either list has entries |
| Aggregate.Area | timeline.py:90 | the area times 1765.2936237 is the pixel count, exactly, and is never negative for a count |
| Aggregate.Suppress | timeline.py:91 | a value is either kept unchanged or set to 0, and no result lies strictly between 0 and 0.45 |
| Aggregate.FilterAligned | timeline.py:84-85 | the kept counts and the kept timestamps each have one entry per successful sample, and the k-th of each comes from the same, k-th successful sample |
| Aggregate.KeptTimestamps | timeline.py:85 | a timestamp is kept exactly when it was generated and its sample succeeded |
| Aggregate.KeptTimestampsDescending | timeline.py:85 | dropping samples keeps a strictly newest-first list strictly newest first |
| Aggregate.ValidCountsWidth | timeline.py:84 | when every successful sample has sixteen counts, so does every kept vector |
| Aggregate.AreaSeries | timeline.py:90-91 | none when no sample was kept; otherwise one value per kept sample; an area at or above 0.45 km² is kept unchanged and an area below becomes 0, so each value is 0 or an area of at least 0.45 km² |
| Aggregate.SurvivingCounts | timeline.py:90-91 | a count gives a nonzero value exactly when it is at least 795 pixels, and no value is negative |
| Aggregate.SuppressMonotone | timeline.py:90-91 | more pixels never give a smaller value |
| Aggregate.NoiseFloorExamples | timeline.py:90-91 | 1765.2936237/1765.2936237 stays 1.0, 0.45 stays and 0.40 becomes 0 |
| Timeline.ProcessImage | timeline.py:46-64 | none exactly when the fetch fails; otherwise sixteen counts, the k-th being the pixels of the cropped frame within 30 of band k's colour, which is the frame's band-count vector |
| Timeline.FrameCounts | timeline.py:46-64 | a frame that was fetched has sixteen band counts |
| Timeline.BuildSeries | timeline.py:88-99 | none exactly when no sample was kept; otherwise sixteen series in band order, named `<band> mm/hr`, coloured with the band's hex string, over the kept timestamps, with the band's suppressed areas |
| Timeline.SlotsRepresentable | timeline.py:73-81 | every generated timestamp is a whole minute whose date `datetime` can hold |
| Timeline.FetchFrames | timeline.py:83 | one result per timestamp, in order, each being what `process_image` gives for that frame |
| Timeline.AppendFrame | timeline.py:83 | appending the next frame's result keeps results and frames in step |
| Timeline.KeptFrames | timeline.py:83-86 | nothing is kept exactly when every frame fails; the kept timestamps are strictly newest first and are exactly the generated timestamps whose frame was fetched; the k-th kept count vector is that frame's counts and has sixteen entries |
| Timeline.SeriesOfFrames | timeline.py:88-99 | the series built from the kept frames carry, at each kept time, the band's suppressed area of that time's frame |
| Timeline.PlotTimeline | timeline.py:66-99 | no chart exactly when every frame fails; otherwise sixteen series in band order, each named `<band> mm/hr` and coloured with the band's hex string; each covers exactly the generated timestamps whose frame was fetched, strictly newest first; each value is that frame's band area after the noise floor |

## Left out

- HTTP, image decoding and RGBA conversion are left out, and so is the centred 320x400 crop at lines 48-59. They become the `Fetcher` parameter. Any request or image error is a `None` result. The error message `process_image` prints is not modelled.
- `datetime.now(hkt)` at lines 67-68: "now" is a parameter. The fractional second is irrelevant, as explained above.
- The Plotly figure, its layout and `fig.show()` (lines 92-124). The model returns the sixteen traces' names, colours, x values and y values.
- Floating point: areas are exact `real` quotients. IEEE rounding can move a value lying right at the 0.45 threshold; that is not modelled.
- Palette.DecodeHex: the model accepts only two hex digits per pair. Python's `int(_, 16)` also accepts signs, whitespace, `0x` prefixes and underscores. The source's table uses none of them.
- Urls.Stamp: it is defined only for years 1 to 9999, and pads the year to four digits. How `%Y` prints years below 1000 depends on the platform, and no radar frame has such a date.
- Timestamps.SortDescending: `list.sort(reverse=True)` sorts the list in place. Here it is a function on the list's value; the list is local to `plot_timeline`, so no alias can observe the update.
- Classify.Width: NumPy's shape of an empty image is not modelled. The width of an image with no rows is taken as 0.
- Classify.CountColorPixels: the loop over bands is a method. `np.sum` over the mask is the specification function `CountMatching`, not a second loop.
- Aggregate.AreaSeries: when no sample survives, NumPy raises `IndexError` at line 90. The model returns `None` there, and `PlotTimeline` then returns `None`.
- Timeline.PlotTimeline: it requires "now" to be at least two hours after 0001-01-01 00:00, because earlier Python raises `OverflowError` going back two hours. It also requires "now" to be before year 10000.
- The error handling of `process_image` catches only request and image errors. The model treats every fetch or decode failure as one `None`.
- Aggregate.NoiseFloorExamples: the example "1765.2936237 pixels give 1.0 km²" is not an integer pixel count, so it is stated on reals.
