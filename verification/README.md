# ChronoLens: a verified model of the timeline arithmetic

ChronoLens shows one or more historical timelines side by side on a vertical,
zoomable scale. This project is a Dafny model of the part of ChronoLens that
computes things:

- the two date parsers, which turn loose date strings ("2001-03-01",
  "March 1970", " 1999 ", engine-parsable dates) into a *fractional year*;
- the scale: how the tick interval is chosen, how the multiples of it are
  enumerated, and the year / month / day tick labels;
- the view's padded `[minYear, maxYear]` range and its pixel mapping, for both
  the cursor and the `top` offsets;
- the column layout: filter, stable sort, alternating sides, offsets and keys;
- the page state: the timeline list (duplicate rejection, append, remove,
  clear) and the zoom clamped to [0.1, 20].

The source keeps several revisions side by side that do not agree with one
another. Each one is modelled as written: `DateUtils` and `ParseYear` are two
different parsers, and `YearScale` and `TimelineView` are two different tick
choosers.

Modules, one per source file, plus shared ones:

- `Wrappers`: `Option` and `FindIndex` (`Array.prototype.findIndex`).
- `Text`: digits, decimal strings, ASCII lower-casing, `trim`.
- `Calendar`: the Gregorian calendar as JavaScript's `Date` computes it. This
  includes day-of-year ordinals and their inverse, the roll-over of
  out-of-range months and days in `Date.UTC`, and the mapping of years 0..99
  of `Date.UTC(y, …)` and `new Date(y, …)`.
- `Patterns`: the regular expressions, written as explicit matchers. This
  includes the leftmost-match search for `(\w+)\s(\d{4})`.
- `DateUtils`: src/lib/date-utils.ts.
- `ParseYear`: src/components/timeline/parse-year.ts.
- `MarkerLabel`: src/components/timeline/get-marker-label.ts.
- `Ticks`: the multiples of an interval inside a range, shared by both scales.
- `YearScale`: src/components/timeline/year-scale.tsx.
- `Types`: src/types/index.ts.
- `TimelineView`: src/components/timeline/timeline-view.tsx.
- `TimelineColumn`: src/components/timeline/timeline-column.tsx.
- `Page`: src/app/page.tsx, as the class `ChronoLensPage`.

Several things are modelled as follows:

- JavaScript numbers are modelled as exact `real`s. `Math.floor` is `.Floor`,
  `Math.ceil` is `Ticks.Ceil`, and `Math.round(v)` is `Floor(v + 0.5)`.
- The engine's own date parser (`Date.parse` and `new Date(string)`) has
  implementation-defined behaviour. It is a function parameter that yields a
  UTC date-time or nothing.
- `Date.now()` is a parameter of `AddTimeline`.
- The comparator reads `fractionalYear as number`, and JavaScript arithmetic
  reads `null` as 0. `TimelineColumn.Key` does the same. The filter runs first,
  so the sort never meets a `null`.
- The server action's answer is also a parameter of `AddTimeline`, and its
  notifications are an `AddOutcome` result.

Notable behaviours of the code as written:

- `YearScale` uses `find` over a table ordered from 1000 years down to one
  day. It therefore chooses the COARSEST interval whose value is at least
  80 / px-per-year. That is 1000 years at any scale of 0.08 px/year or more,
  and one day below that; no middle entry is ever chosen.
- `TimelineView` falls back to 1 when no interval fits. The choice is
  therefore not monotone below 0.06 px/year, and a counterexample is proved.
  It is monotone for every zoom the page allows.
- The view hands a raw `Timeline` to the column, plus a `parseYear` prop the
  column does not declare. The column is modelled on its declared props: events
  that carry `fractionalYear`.
- The view renders `YearScale` without its declared `maxYear` prop
  (timeline-view.tsx:109-115). In the app as wired, the loop test
  `year <= maxYear` compares with `undefined` and is false, so the scale
  pushes no markers. `YearScale` is modelled on its declared props.

## Model

| member | source | states |
|---|---|---|
| Calendar.LeapYearAsWritten | src/lib/date-utils.ts:15-26 | The leap-year test with JavaScript's truncating `%` holds exactly for years divisible by 4 and not by 100, or by 400. A year has 366 days exactly when it is a leap year. |
| Calendar.JsRemainder | src/lib/date-utils.ts:16 | JavaScript's `%` by a positive divisor n differs from the dividend by a multiple of n, lies strictly between −n and n, and has the dividend's sign (0 counts for both). These fix the value uniquely. |
| Calendar.LeapYearPeriodic | src/lib/date-utils.ts:15-17 | The leap-year rule and the year length repeat every 400 years. |
| Calendar.LeapYearExamples | src/lib/date-utils.ts:15-26 | 2000 and 2024 are leap years; 1900 and 2023 are not. |
| Calendar.DaysInYear | src/lib/date-utils.ts:24-26 | A year has 365 or 366 days. |
| Calendar.TwelveMonthsMakeAYear | src/components/timeline/get-marker-label.ts:29-30 | The twelve month lengths add up to the length of the year, leap years included. |
| Calendar.DayOfYear | src/lib/date-utils.ts:48-50 | The 0-based day of year of a valid date is below the year's length. |
| Calendar.DateInYear | src/components/timeline/get-marker-label.ts:29-30 | Every day number below the year's length is the day of year of a valid date in that year. |
| Calendar.DateInYearOfDayOfYear | src/components/timeline/get-marker-label.ts:29-30 | Converting a date to its day of year and back gives the same date. |
| Calendar.DayOfYearInjective | src/lib/date-utils.ts:48-50 | Two valid dates in one year with the same day of year are equal. |
| Calendar.DateOfOffset | src/components/timeline/get-marker-label.ts:29 | `new Date(y, 0, k + 1)` is a valid date no earlier than year y. Inside the year it is the date whose day of year is k. |
| Calendar.DaysFromYearStartOfValidDate | src/lib/date-utils.ts:48-50 | For a valid date, the whole days between Jan 1 and it, computed with roll-over as `Date.UTC` does, equal its day of year. |
| Calendar.YearSpanBounds | src/lib/date-utils.ts:48-50 | The days between two year starts are 365 to 366 per year, and the count is antisymmetric. |
| Calendar.EngineFractionalYearInYear | src/lib/date-utils.ts:79-83 | For an engine date outside years 0..99, the fractional year lies in [year, year + 1) and its floor is the year. |
| Calendar.EngineFractionalYearEarlyYears | src/lib/date-utils.ts:79-83 | For an engine date in years 0..99, `Date.UTC` puts the year start in the 1900s, so the result lies more than 1800 years before the date. |
| Text.IntToStringRoundTrip | src/components/timeline/get-marker-label.ts:11 | Reading back the decimal text of an integer gives the integer. |
| Text.NatToStringInjective | src/components/timeline/timeline-column.tsx:69 | Different indices have different decimal texts. |
| Text.TrimSurrounded | src/lib/date-utils.ts:38 | `trim` strips the surrounding white space and leaves the core. |
| Text.Trim | src/lib/date-utils.ts:38 | The trimmed text is a slice of the input that neither starts nor ends with white space. |
| Patterns.PaddedFourDigitsMatches | src/components/timeline/parse-year.ts:33 | `^\s*(\d{4})\s*$` matches four digits surrounded by white space and captures the digits. |
| Patterns.PaddedFourDigitsOnlyMatches | src/components/timeline/parse-year.ts:33 | Whatever `^\s*(\d{4})\s*$` matches is four digits surrounded by white space. |
| Patterns.SearchMonthYear | src/lib/date-utils.ts:56 | The search returns a match of `(\w+)\s(\d{4})` and no match starts earlier. When it finds nothing, no match exists. |
| Patterns.MatchEndsAtWordEnd | src/lib/date-utils.ts:56 | A match's word is the whole run of word characters from its start (greedy `\w+`). |
| DateUtils.EmptyIsNull | src/lib/date-utils.ts:36 | An empty input gives null. |
| DateUtils.IsoRuleApplies | src/lib/date-utils.ts:41-53 | A trimmed `DDDD-DD-DD` input is decided by the ISO rule, whatever the engine does. |
| DateUtils.IsoRuleValue | src/lib/date-utils.ts:38-53 | For a valid ISO date (year 100 or later), the result is year + day of year / days in year, which lies in [year, year + 1). |
| DateUtils.IsoExample | src/lib/date-utils.ts:41-53 | "2001-03-01" gives 2001 + 59/365. |
| DateUtils.MonthYearRuleValue | src/lib/date-utils.ts:56-65 | When the leftmost word-space-four-digits match has a word equal, case-insensitively, to month m's full name, the result is year + (m + 0.5)/12. That lies strictly inside (year, year + 1). |
| DateUtils.DistinctMonthNames | src/lib/date-utils.ts:60 | No two full month names are equal after lower-casing, so at most one month matches. |
| DateUtils.MonthYearRuleFallsThrough | src/lib/date-utils.ts:60-66 | When the matched word is no full month name ("Feb"), the result is that of the bare-year rule or the engine. |
| DateUtils.BareYearValue | src/lib/date-utils.ts:69-73 | An input that trims to four digits gives exactly that integer. |
| DateUtils.BareYearExample | src/lib/date-utils.ts:69-73 | " 2001 " gives 2001. |
| DateUtils.EngineIsLastResort | src/lib/date-utils.ts:41-77 | When any of the first three rules applies, the engine cannot change the result. |
| DateUtils.NoRuleIsNull | src/lib/date-utils.ts:77-89 | With no rule matching and the engine failing, the result is null. |
| ParseYear.EmptyIsNull | src/components/timeline/parse-year.ts:7 | An empty input gives null. |
| ParseYear.GuardSkipsEngine | src/components/timeline/parse-year.ts:11 | For an input with an ASCII letter or without a separator, the engine cannot change the result. |
| ParseYear.EngineBranchValue | src/components/timeline/parse-year.ts:10-17 | When the guard passes and the engine parses, the result is the UTC year plus the elapsed days over that year's length. Outside years 0..99 its floor is the year. |
| ParseYear.PrefixSearch | src/components/timeline/parse-year.ts:25 | The month index is the first month, in calendar order, whose lower-cased name starts with the lower-cased word. |
| ParseYear.PrefixMarch | src/components/timeline/parse-year.ts:25 | "Ma" means March, not May. |
| ParseYear.PrefixJune | src/components/timeline/parse-year.ts:25 | "ju" means June, not July. |
| ParseYear.PrefixRuleValue | src/components/timeline/parse-year.ts:21-29 | When the word prefixes month m, the month-year rule gives year + (m + 0.5)/12, with m in 0..11. |
| ParseYear.MonthYearValue | src/components/timeline/parse-year.ts:21-29 | When the engine branch is not taken and the word prefixes month m, the result is year + (m + 0.5)/12, strictly inside (year, year + 1). |
| ParseYear.BareYearValue | src/components/timeline/parse-year.ts:11-35 | Four bare digits never reach the engine, because they hold no separator. The result is exactly that integer. |
| ParseYear.PaddedYearValue | src/components/timeline/parse-year.ts:21-35 | Four digits with surrounding white space give that integer, unless the engine branch takes the input. |
| ParseYear.BareYearHasNoMonthYear | src/components/timeline/parse-year.ts:21 | A padded four-digit year never matches `(\w+)\s(\d{4})`. |
| ParseYear.NoRuleIsNull | src/components/timeline/parse-year.ts:38 | With no rule applying, the result is null. |
| MarkerLabel.Remainder | src/components/timeline/get-marker-label.ts:7-8 | The remainder lies in [0, 1) and adds to the floor to give the input. |
| MarkerLabel.Round | src/components/timeline/get-marker-label.ts:28 | `Math.round(v)` is within half a unit of v, with halves rounded up. |
| MarkerLabel.MonthIndex | src/components/timeline/get-marker-label.ts:18-23 | `floor(remainder * 12)` is always in 0..11, and it is the twelfth of the year the remainder falls in. |
| MarkerLabel.DayNumber | src/components/timeline/get-marker-label.ts:14-28 | The 1-based day number is between 1 and the year's length + 1. |
| MarkerLabel.YearLabelReadsBack | src/components/timeline/get-marker-label.ts:7-12 | A year label reads back as the year that contains x. |
| MarkerLabel.MonthLabelAtYearStart | src/components/timeline/get-marker-label.ts:17-22 | A month marker less than 0.01 past a year start shows the year. |
| MarkerLabel.MonthLabelNamesMonth | src/components/timeline/get-marker-label.ts:18-23 | Any other month marker shows the abbreviation of the month (by twelfths) x falls in. The empty fallback never fires. |
| MarkerLabel.DayNumberRounds | src/components/timeline/get-marker-label.ts:14-28 | The day number is the remainder's share of the Gregorian year length, rounded, plus one. |
| MarkerLabel.DayLabelIsCalendarDate | src/components/timeline/get-marker-label.ts:29-37 | For the calendar date of the day number, the label is "Mon YYYY" on the 1st of a month and "Mon D" otherwise. |
| MarkerLabel.DayNumberHasDate | src/components/timeline/get-marker-label.ts:28-30 | Every day number within the year has a calendar date in that year. |
| MarkerLabel.DayLabelRollsOver | src/components/timeline/get-marker-label.ts:28-35 | When the remainder rounds to a whole year, the date rolls to Jan 1 and the label is "Jan" with the un-advanced year. |
| Ticks.Ceil | src/components/timeline/year-scale.tsx:87 | `Math.ceil(x)` is the least integer not below x. |
| Ticks.MultipleNext | src/components/timeline/year-scale.tsx:89 | Adding the interval to a multiple gives the next multiple. |
| Ticks.AtLeastLow | src/components/timeline/year-scale.tsx:87-92 | A multiple is at least the low end exactly when its index is at least `ceil(lo / step)`. |
| Ticks.AtMostHigh | src/components/timeline/year-scale.tsx:89 | A multiple is at most the high end exactly when its index is at most `floor(hi / step)`. |
| Ticks.MultiplesSound | src/components/timeline/year-scale.tsx:87-92 | Every listed value is a multiple of the interval inside [lo, hi]. |
| Ticks.MultiplesComplete | src/components/timeline/year-scale.tsx:87-92 | Every multiple of the interval inside [lo, hi] is listed. |
| Ticks.MultiplesAscending | src/components/timeline/year-scale.tsx:89-97 | The values strictly increase, one interval apart. |
| Ticks.MultiplesStart | src/components/timeline/year-scale.tsx:87 | The first value is the smallest multiple at or above lo. |
| Ticks.MultiplesEmpty | src/components/timeline/year-scale.tsx:87-89 | There are no values exactly when no multiple lies in the range. |
| YearScale.IntervalTags | src/components/timeline/year-scale.tsx:16-35 | Entries of 1 year or more are 'year'. 1/2, 1/4 and 1/12 are 'month'. 7/365.25 and 1/365.25 are 'day'. |
| YearScale.IntervalsDescend | src/components/timeline/year-scale.tsx:16-35 | The 15 entries strictly decrease from 1000 years to one day. |
| YearScale.CoarsestWhenAnyFits | src/components/timeline/year-scale.tsx:79-82 | At 0.08 px/year or more, `find` returns the 1000-year entry. |
| YearScale.FinestWhenNoneFits | src/components/timeline/year-scale.tsx:79-82 | Below 0.08 px/year no entry is wide enough, and the fallback is the one-day entry. |
| YearScale.ChosenIsAnEnd | src/components/timeline/year-scale.tsx:79-82 | Only the first or the last table entry is ever chosen. |
| YearScale.StartOfYear | src/components/timeline/year-scale.tsx:61 | `new Date(year, 0)` is local midnight of Jan 1 of the year `new Date` reads, with 0..99 taken as 1900..1999. |
| YearScale.ScaleLabelAgrees | src/components/timeline/year-scale.tsx:39-72 | The local label function equals `getMarkerLabel` on every input and granularity. `setDate` on Jan 1 reaches the same day as `new Date(year, 0, d)`. |
| YearScale.ScaleMarkers | src/components/timeline/year-scale.tsx:75-100 | There are no markers at a non-positive scale. Otherwise the markers are exactly the multiples of the chosen interval in [minYear, maxYear], in order, each labelled at the chosen granularity. |
| YearScale.MarkerLoop | src/components/timeline/year-scale.tsx:84-98 | The loop from `ceil(minYear / interval) * interval` pushes exactly the multiples in range, with their labels. |
| YearScale.MarkerTopInRange | src/components/timeline/year-scale.tsx:105 | At a positive scale, every marker's offset lies between 0 and the offset of maxYear. |
| TimelineView.RunningMin | src/components/timeline/timeline-view.tsx:33 | The running minimum is null exactly for no years. Otherwise it is one of the years and no year is below it. |
| TimelineView.RunningMax | src/components/timeline/timeline-view.tsx:34 | The running maximum is null exactly for no years. Otherwise it is one of the years and no year is above it. |
| TimelineView.ScanRange | src/components/timeline/timeline-view.tsx:26-43 | The nested loops compute the padded range of all parsed years. |
| TimelineView.ScanEvents | src/components/timeline/timeline-view.tsx:30-36 | The inner loop over one timeline's events continues the running minimum and maximum with exactly that timeline's parsed years. |
| TimelineView.ViewRange | src/components/timeline/timeline-view.tsx:26-43 | The memo's range is the padded range of the years `parseYear` gives for all events of all timelines. |
| TimelineView.RangeIsPaddedExtremes | src/components/timeline/timeline-view.tsx:38-40 | With a parsed year, the range is [min − p, max + p] for the least and greatest parsed years. |
| TimelineView.RangeContainsEveryYear | src/components/timeline/timeline-view.tsx:39-40 | The padding (5% of the span, or 5 for a zero span) is positive, so every parsed year lies strictly inside the range. |
| TimelineView.AllYearsMembers | src/components/timeline/timeline-view.tsx:29-35 | The scanned years are exactly the parsed dates of the events. |
| TimelineView.EventYearsMembers | src/components/timeline/timeline-view.tsx:30-35 | The years scanned from one timeline are exactly the parsed dates of its events. |
| TimelineView.RangeContainsEveryParsedDate | src/components/timeline/timeline-view.tsx:26-41 | Every event whose date parses lies strictly inside the range. |
| TimelineView.RangeFallback | src/components/timeline/timeline-view.tsx:42 | When no date parses, the range is [1990, 2030]. |
| TimelineView.TickIntervalsDescend | src/components/timeline/timeline-view.tsx:49 | The candidate intervals strictly decrease from 1000 and are positive. |
| TimelineView.LastFitIsLastFitting | src/components/timeline/timeline-view.tsx:50-56 | After the loop, the interval is the last visited entry that fits, or 1 when none fits. |
| TimelineView.TickIntervalIsSmallestFit | src/components/timeline/timeline-view.tsx:49-56 | The interval is the smallest listed one with interval × px/year ≥ 60, or 1 when none fits. |
| TimelineView.TickIntervalMonotone | src/components/timeline/timeline-view.tsx:49-56 | Once 1000 fits, a larger px/year never gives a larger interval. |
| TimelineView.TickIntervalNotMonotoneBelowFit | src/components/timeline/timeline-view.tsx:50-56 | 0.05 px/year gives 1 but 0.1 px/year gives 1000, so the choice is not monotone below the 0.06 px/year threshold. |
| TimelineView.TickIntervalMonotoneOverPageZooms | src/components/timeline/timeline-view.tsx:46-56 | For zooms of 0.1 or more, zooming in never coarsens the interval. |
| TimelineView.ChooseTickInterval | src/components/timeline/timeline-view.tsx:50-56 | The loop computes the interval specified above. |
| TimelineView.TickLoop | src/components/timeline/timeline-view.tsx:58-66 | The loop pushes exactly the multiples of the interval in [minYear, maxYear]. The `>= minYear` guard never rejects. |
| TimelineView.YearMarkers | src/components/timeline/timeline-view.tsx:45-67 | There are no markers at a non-positive scale. Otherwise the markers are exactly the multiples of the chosen interval in the range, ascending. |
| TimelineView.CursorYearInvertsTop | src/components/timeline/timeline-view.tsx:72 | The year at the cursor is placed back at the cursor's content offset. |
| TimelineView.TopInvertsCursorYear | src/components/timeline/timeline-view.tsx:123 | The cursor year at a year's offset is that year. |
| TimelineView.MarkerTopInContent | src/components/timeline/timeline-view.tsx:94-123 | Every marker's offset lies in [0, totalHeight]. |
| TimelineColumn.Placed | src/components/timeline/timeline-column.tsx:34 | Every kept event has a fractional year. |
| TimelineColumn.PlacedCounts | src/components/timeline/timeline-column.tsx:34 | The filter keeps every placed event as often as it occurs and drops every unplaced one. |
| TimelineColumn.InsertPermutes | src/components/timeline/timeline-column.tsx:35 | Insertion adds exactly the inserted event. |
| TimelineColumn.InsertSorted | src/components/timeline/timeline-column.tsx:35 | Insertion into a sorted list keeps it sorted by fractional year. |
| TimelineColumn.SortSortsPermutes | src/components/timeline/timeline-column.tsx:35 | The sort's output is non-decreasing by fractional year and a permutation of its input. |
| TimelineColumn.SortIsStable | src/components/timeline/timeline-column.tsx:35 | Events with equal fractional years keep their input order. |
| TimelineColumn.SortedEventsSpec | src/components/timeline/timeline-column.tsx:33-35 | `sortedEvents` is sorted, is a permutation of exactly the placed events, and keeps ties in input order. |
| TimelineColumn.Layout | src/components/timeline/timeline-column.tsx:62-75 | There is one card per sorted event, in order. |
| TimelineColumn.SidesAlternate | src/components/timeline/timeline-column.tsx:64 | The first card is on the left, and consecutive cards alternate sides. |
| TimelineColumn.TopsDescendTheColumn | src/components/timeline/timeline-column.tsx:65 | With a positive scale, offsets never decrease down the column. |
| TimelineColumn.TopKeepsOrder | src/components/timeline/timeline-column.tsx:65 | The offset is monotone in the year, and non-negative from minYear on. |
| TimelineColumn.TopNotAboveColumn | src/components/timeline/timeline-column.tsx:65 | A card whose year is not before minYear has a non-negative offset. |
| TimelineColumn.KeysDistinct | src/components/timeline/timeline-column.tsx:69 | The keys `${id}-${index}` are pairwise distinct. |
| Page.ZoomedIn | src/app/page.tsx:100 | Zooming in gives the smaller of 1.5 times the zoom and 20: it is at most both, and equal to one of them. |
| Page.ZoomedOut | src/app/page.tsx:101 | Zooming out gives the larger of the zoom over 1.5 and 0.1: it is at least both, and equal to one of them. |
| Page.ZoomStepsStayInRange | src/app/page.tsx:100-101 | Both handlers keep a zoom in [0.1, 20] inside it. |
| Page.ButtonsEnabledWhenEffective | src/app/page.tsx:100-118 | `canZoomIn` (zoom < 20) holds exactly when zooming in changes the zoom. The same holds for `canZoomOut`. |
| Page.ZoomAfterStaysInRange | src/app/page.tsx:100-101 | From the initial 1, any sequence of presses stays in [0.1, 20]. |
| Page.WithoutIdSpec | src/app/page.tsx:91-93 | The filter keeps exactly the timelines with a different id. An absent id changes nothing. |
| Page.WithoutIdSingle | src/app/page.tsx:92 | On a single timeline the filter keeps it exactly when its id differs. |
| Page.WithoutIdKeepsOrder | src/app/page.tsx:92 | The filter distributes over concatenation, so the kept timelines stay in their order, each as often as it occurs. |
| Page.WithoutIdIdempotent | src/app/page.tsx:91-93 | Removing the same id twice is the same as removing it once. |
| Page.ChronoLensPage.constructor | src/app/page.tsx:15-16 | The page starts with no timelines at zoom 1. |
| Page.ChronoLensPage.ZoomIn | src/app/page.tsx:100-117 | The zoom becomes the zoomed-in value and stays in range; the list is unchanged. It changes exactly when `canZoomIn` held. |
| Page.ChronoLensPage.ZoomOut | src/app/page.tsx:101-118 | The zoom becomes the zoomed-out value and stays in range; the list is unchanged. It changes exactly when `canZoomOut` held. |
| Page.ChronoLensPage.RemoveTimeline | src/app/page.tsx:91-93 | The list becomes the timelines whose id differs, in order; the zoom is unchanged. |
| Page.ChronoLensPage.Clear | src/app/page.tsx:95-96 | The list becomes empty. |
| Page.ChronoLensPage.AddTimeline | src/app/page.tsx:61-89 | A duplicate title (case-insensitive) is reported and an empty topic is ignored; both leave the list unchanged. A truthy error leaves it unchanged. Data without an error appends exactly one timeline, with id lower(topic) + timestamp, after the unchanged earlier ones. After an append the data's title is shown, so when it equals the topic (as the server action sets it) adding the topic again is a duplicate. |

## Left out

- src/ai/flows/populate-timeline.ts and src/app/actions.ts: the generative-AI call and its wrapper are foreign calls. Their answer is the `response` parameter of `AddTimeline`.
- Browser storage: loading, saving and removing the list in localStorage, its JSON parsing (src/app/page.tsx:22-58,97), and the initial fetch of a default timeline.
- The `setTimeout` scroll after an append, and all JSX markup and styling.
- The UI-only files timeline-event-card.tsx, timeline-controls.tsx, cursor-indicator.tsx and time-gap-indicator.tsx are not part of this model.
- Concurrency: `startTransition` runs the add asynchronously, so two in-flight adds of one topic can both append. `AddTimeline` is modelled as one atomic step.
- Toasts and `console.warn`: modelled only as the `AddOutcome` result.
- `Date.now()`: a parameter, so the uniqueness of ids is not modelled.
- Engine date parsing (`Date.parse`, `new Date(string)`): an oracle parameter whose results are valid UTC date-times. Its formats, time zones and range limits are not modelled.
- Floating point: numbers are exact reals. `toPrecision(12)` and the drift of `year += interval` are not modelled. Each loop keeps the exact multiple, so the `roundedYear < minYear` skip never fires.
- Local time: labels use a calendar without daylight saving, so `getHours()` is 0 at local midnight.
- `toLowerCase` and `\w`: ASCII letters only. `\s` and `trim` use ECMAScript's full WhiteSpace and LineTerminator set.
- The `typeof dateStr !== 'string'` test: inputs are strings by type.
- The empty-state screen shown when no timeline is loaded, and the mouse handlers that set the cursor position.
- DateUtils.IsoRuleValue: stated for valid dates from year 100 on. Other ISO inputs (years 0000–0099, out-of-range months or days) are modelled with `Date.UTC`'s mapping and roll-over, but only `IsoRuleApplies` is stated about them.
- ParseYear.PaddedYearValue: requires that the engine branch does not take the input, because white space counts as a separator and the engine may parse " 2001 ".
- MarkerLabel.DayLabelIsCalendarDate: stated for years outside 0..99, because `new Date(year, 0, d)` reads those years as 1900..1999.
- MarkerLabel.DayLabelRollsOver: stated for years outside 0..99, for the same reason.
- TimelineView.CursorYear: requires a positive zoom. The source divides by `100 * zoom`, which the page keeps at 0.1 or more. The null returned without a mounted element is modelled as an absent cursor position.
- TimelineView.ViewRange: takes `parseYear` with the engine as a parameter. ScanRange is stated for any parser.
