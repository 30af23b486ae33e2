/**
 * The computations of `TimelineView` (src/components/timeline/timeline-view.tsx):
 * the visible year range over every parsed event date, the finest tick
 * interval at least 60 pixels apart, the tick years, and the mapping between
 * years and pixels used for the event cards, the year lines and the cursor.
 */
module TimelineView {
  import opened Wrappers
  import opened Types
  import opened Ticks
  import PY = ParseYear

  /** `Y_AXIS_MULTIPLIER`: pixels per year at zoom 1. */
  const YAxisMultiplier: real := 100.0

  /** `MIN_PX_BETWEEN_MARKERS` */
  const MinPxBetweenMarkers: real := 60.0

  /** `parseYear` of parse-year.ts with the engine's `new Date` fixed. */
  function YearParser(engine: PY.EngineParse): string -> Option<real>
  {
    (s: string) => PY.ParseYear(s, engine)
  }

  /** The parsed years of some events, in order; unparseable dates are
      skipped. The view parses with `YearParser(engine)`. */
  function EventYears(events: seq<TimelineEvent>, parse: string -> Option<real>): seq<real>
  {
    if events == [] then []
    else
      var last := events[|events| - 1];
      EventYears(events[..|events| - 1], parse)
        + match parse(last.date) case Some(y) => [y] case None => []
  }

  /** The parsed years of every event of every timeline, in order. */
  function AllYears(timelines: seq<Timeline>, parse: string -> Option<real>): seq<real>
  {
    if timelines == [] then []
    else AllYears(timelines[..|timelines| - 1], parse) + EventYears(timelines[|timelines| - 1].events, parse)
  }

  /** `if (min === null || year < min) min = year` */
  function MinUpdate(min: Option<real>, year: real): Option<real>
  {
    if min.None? || year < min.value then Some(year) else min
  }

  /** `if (max === null || year > max) max = year` */
  function MaxUpdate(max: Option<real>, year: real): Option<real>
  {
    if max.None? || year > max.value then Some(year) else max
  }

  /** `min` after visiting `ys` in order: the least of them, or null. */
  function RunningMin(ys: seq<real>): (r: Option<real>)
    ensures r.None? <==> ys == []
    ensures r.Some? ==> r.value in ys && forall y :: y in ys ==> r.value <= y
  {
    if ys == [] then None
    else
      assert forall y :: y in ys ==> y in ys[..|ys| - 1] || y == ys[|ys| - 1];
      MinUpdate(RunningMin(ys[..|ys| - 1]), ys[|ys| - 1])
  }

  /** `max` after visiting `ys` in order: the greatest of them, or null. */
  function RunningMax(ys: seq<real>): (r: Option<real>)
    ensures r.None? <==> ys == []
    ensures r.Some? ==> r.value in ys && forall y :: y in ys ==> y <= r.value
  {
    if ys == [] then None
    else
      assert forall y :: y in ys ==> y in ys[..|ys| - 1] || y == ys[|ys| - 1];
      MaxUpdate(RunningMax(ys[..|ys| - 1]), ys[|ys| - 1])
  }

  /** `(max - min) * 0.05 || 5`: a zero product is falsy. */
  function Padding(min: real, max: real): real
  {
    if (max - min) * 0.05 == 0.0 then 5.0 else (max - min) * 0.05
  }

  /** The `[minYear, maxYear]` the memo returns for the parsed years `ys`. */
  function RangeOf(ys: seq<real>): (real, real)
  {
    var min, max := RunningMin(ys), RunningMax(ys);
    if min.Some? && max.Some? then
      var padding := Padding(min.value, max.value);
      (min.value - padding, max.value + padding)
    else (1990.0, 2030.0)
  }

  /** The `useMemo` computing `[minYear, maxYear]` from `parseYear`. */
  method ViewRange(timelines: seq<Timeline>, engine: PY.EngineParse) returns (minYear: real, maxYear: real)
    ensures (minYear, maxYear) == RangeOf(AllYears(timelines, YearParser(engine)))
  {
    minYear, maxYear := ScanRange(timelines, YearParser(engine));
  }

  /** The body of that memo for a given parser: two nested `forEach` loops
      updating `min` and `max`, then the padding. */
  method ScanRange(timelines: seq<Timeline>, parse: string -> Option<real>) returns (minYear: real, maxYear: real)
    ensures (minYear, maxYear) == RangeOf(AllYears(timelines, parse))
  {
    var min: Option<real> := None;
    var max: Option<real> := None;
    var i := 0;
    assert timelines[..0] == [];
    while i < |timelines|
      invariant i <= |timelines|
      invariant min == RunningMin(AllYears(timelines[..i], parse))
      invariant max == RunningMax(AllYears(timelines[..i], parse))
    {
      min, max := ScanEvents(timelines[i].events, parse, AllYears(timelines[..i], parse), min, max);
      AllYearsStep(timelines, i, parse);
      i := i + 1;
    }
    assert timelines[..i] == timelines;
    if min.Some? && max.Some? {
      var padding := Padding(min.value, max.value);
      minYear, maxYear := min.value - padding, max.value + padding;
    } else {
      minYear, maxYear := 1990.0, 2030.0;
    }
  }

  /** The inner `forEach` over one timeline's events, continuing the running
      `min` and `max` of the years `before` already visited. */
  method ScanEvents(events: seq<TimelineEvent>, parse: string -> Option<real>, ghost before: seq<real>,
                    min0: Option<real>, max0: Option<real>)
    returns (min: Option<real>, max: Option<real>)
    requires min0 == RunningMin(before) && max0 == RunningMax(before)
    ensures min == RunningMin(before + EventYears(events, parse))
    ensures max == RunningMax(before + EventYears(events, parse))
  {
    min, max := min0, max0;
    var j := 0;
    assert before + EventYears(events[..0], parse) == before by {
      assert events[..0] == [];
    }
    while j < |events|
      invariant j <= |events|
      invariant min == RunningMin(before + EventYears(events[..j], parse))
      invariant max == RunningMax(before + EventYears(events[..j], parse))
    {
      var year := parse(events[j].date);
      ghost var seen := before + EventYears(events[..j], parse);
      SeenStep(before, events, j, parse);
      if year.Some? {
        RunningStep(seen, year.value);
        if min.None? || year.value < min.value {
          min := year;
        }
        if max.None? || year.value > max.value {
          max := year;
        }
      }
      j := j + 1;
    }
    assert events[..j] == events;
  }

  lemma SeenStep(before: seq<real>, events: seq<TimelineEvent>, j: nat, parse: string -> Option<real>)
    requires j < |events|
    ensures parse(events[j].date).Some? ==>
              before + EventYears(events[..j + 1], parse)
              == before + EventYears(events[..j], parse) + [parse(events[j].date).value]
    ensures parse(events[j].date).None? ==>
              before + EventYears(events[..j + 1], parse) == before + EventYears(events[..j], parse)
  {
    EventYearsStep(events, j, parse);
  }

  lemma EventYearsStep(events: seq<TimelineEvent>, j: nat, parse: string -> Option<real>)
    requires j < |events|
    ensures EventYears(events[..j + 1], parse)
            == EventYears(events[..j], parse)
               + match parse(events[j].date) case Some(y) => [y] case None => []
  {
    assert events[..j + 1][..j] == events[..j];
  }

  lemma AllYearsStep(timelines: seq<Timeline>, i: nat, parse: string -> Option<real>)
    requires i < |timelines|
    ensures AllYears(timelines[..i + 1], parse) == AllYears(timelines[..i], parse) + EventYears(timelines[i].events, parse)
  {
    assert timelines[..i + 1][..i] == timelines[..i];
  }

  lemma RunningStep(ys: seq<real>, y: real)
    ensures RunningMin(ys + [y]) == MinUpdate(RunningMin(ys), y)
    ensures RunningMax(ys + [y]) == MaxUpdate(RunningMax(ys), y)
  {
    assert (ys + [y])[..|ys|] == ys;
  }

  /** With at least one parsed year the range is the least and greatest
      year, widened on both sides by the padding. */
  lemma RangeIsPaddedExtremes(ys: seq<real>)
    requires ys != []
    ensures exists a, b :: a in ys && b in ys && (forall y :: y in ys ==> a <= y <= b)
                           && RangeOf(ys) == (a - Padding(a, b), b + Padding(a, b))
  {
    var a, b := RunningMin(ys).value, RunningMax(ys).value;
    assert a in ys && b in ys && (forall y :: y in ys ==> a <= y <= b);
  }

  /** The padding is positive, so every parsed year lies strictly inside the range. */
  lemma RangeContainsEveryYear(ys: seq<real>)
    ensures ys != [] ==> forall y :: y in ys ==> RangeOf(ys).0 < y < RangeOf(ys).1
  {
    if ys != [] {
      var a, b := RunningMin(ys).value, RunningMax(ys).value;
      assert a in ys;
      assert a <= b;
      assert Padding(a, b) > 0.0;
    }
  }

  /** Some event's date parses to `y`. */
  predicate ParsedAmong(events: seq<TimelineEvent>, parse: string -> Option<real>, y: real)
  {
    exists j :: 0 <= j < |events| && parse(events[j].date) == Some(y)
  }

  /** Some event of some timeline has a date that parses to `y`. */
  predicate ParsedIn(timelines: seq<Timeline>, parse: string -> Option<real>, y: real)
  {
    exists i :: 0 <= i < |timelines| && ParsedAmong(timelines[i].events, parse, y)
  }

  /** The years are exactly the parsed dates of the events. */
  lemma {:induction false} EventYearsMembers(events: seq<TimelineEvent>, parse: string -> Option<real>)
    ensures forall y :: y in EventYears(events, parse) <==> ParsedAmong(events, parse, y)
  {
    if events != [] {
      var n := |events| - 1;
      EventYearsMembers(events[..n], parse);
      forall y ensures y in EventYears(events, parse) <==> ParsedAmong(events, parse, y) {
        ParsedAmongStep(events, parse, y);
      }
    }
  }

  lemma ParsedAmongStep(events: seq<TimelineEvent>, parse: string -> Option<real>, y: real)
    requires events != []
    ensures var n := |events| - 1;
            ParsedAmong(events, parse, y) <==> ParsedAmong(events[..n], parse, y) || parse(events[n].date) == Some(y)
  {
    var n := |events| - 1;
    if ParsedAmong(events, parse, y) {
      var j :| 0 <= j < |events| && parse(events[j].date) == Some(y);
      if j < n { assert events[..n][j] == events[j]; }
    }
    if ParsedAmong(events[..n], parse, y) {
      var j :| 0 <= j < n && parse(events[..n][j].date) == Some(y);
      assert events[j] == events[..n][j];
    }
  }

  /** The scanned years are exactly the parsed dates of all events. */
  lemma {:induction false} AllYearsMembers(timelines: seq<Timeline>, parse: string -> Option<real>)
    ensures forall y :: y in AllYears(timelines, parse) <==> ParsedIn(timelines, parse, y)
  {
    if timelines != [] {
      var n := |timelines| - 1;
      AllYearsMembers(timelines[..n], parse);
      EventYearsMembers(timelines[n].events, parse);
      forall y ensures y in AllYears(timelines, parse) <==> ParsedIn(timelines, parse, y) {
        ParsedInStep(timelines, parse, y);
      }
    }
  }

  lemma ParsedInStep(timelines: seq<Timeline>, parse: string -> Option<real>, y: real)
    requires timelines != []
    ensures var n := |timelines| - 1;
            ParsedIn(timelines, parse, y)
            <==> ParsedIn(timelines[..n], parse, y) || ParsedAmong(timelines[n].events, parse, y)
  {
    var n := |timelines| - 1;
    if ParsedIn(timelines, parse, y) {
      var i :| 0 <= i < |timelines| && ParsedAmong(timelines[i].events, parse, y);
      if i < n { assert timelines[..n][i] == timelines[i]; }
    }
    if ParsedIn(timelines[..n], parse, y) {
      var i :| 0 <= i < n && ParsedAmong(timelines[..n][i].events, parse, y);
      assert timelines[i] == timelines[..n][i];
    }
  }

  /** Every event date that parses lies strictly inside the view range. */
  lemma RangeContainsEveryParsedDate(timelines: seq<Timeline>, parse: string -> Option<real>, i: nat, j: nat)
    requires i < |timelines| && j < |timelines[i].events|
    requires parse(timelines[i].events[j].date).Some?
    ensures var (lo, hi) := RangeOf(AllYears(timelines, parse));
            lo < parse(timelines[i].events[j].date).value < hi
  {
    var y := parse(timelines[i].events[j].date).value;
    assert ParsedAmong(timelines[i].events, parse, y);
    assert ParsedIn(timelines, parse, y);
    AllYearsMembers(timelines, parse);
    RangeContainsEveryYear(AllYears(timelines, parse));
  }

  /** When no event date parses, the range is 1990 to 2030. */
  lemma RangeFallback(timelines: seq<Timeline>, parse: string -> Option<real>)
    requires forall i, j :: 0 <= i < |timelines| && 0 <= j < |timelines[i].events| ==>
               parse(timelines[i].events[j].date).None?
    ensures RangeOf(AllYears(timelines, parse)) == (1990.0, 2030.0)
  {
    AllYearsMembers(timelines, parse);
    var ys := AllYears(timelines, parse);
    assert ys != [] ==> ys[0] in ys && ParsedIn(timelines, parse, ys[0]);
  }

  /** `[1000, 500, 250, 100, 50, 25, 10, 5, 1]` */
  const TickIntervals: seq<real> := [1000.0, 500.0, 250.0, 100.0, 50.0, 25.0, 10.0, 5.0, 1.0]

  /** An interval whose ticks are at least `MIN_PX_BETWEEN_MARKERS` apart. */
  predicate Fits(interval: real, pixelsPerYear: real)
  {
    interval * pixelsPerYear >= MinPxBetweenMarkers
  }

  /** `interval` after the loop has visited `xs`: the last that fits, 1 if none. */
  function LastFit(xs: seq<real>, pixelsPerYear: real): (r: real)
    ensures r == 1.0 || r in xs
  {
    if xs == [] then 1.0
    else if Fits(xs[|xs| - 1], pixelsPerYear) then xs[|xs| - 1]
    else LastFit(xs[..|xs| - 1], pixelsPerYear)
  }

  /** The interval the view uses at `pixelsPerYear`. */
  function TickInterval(pixelsPerYear: real): (r: real)
    ensures r > 0.0
  {
    LastFit(TickIntervals, pixelsPerYear)
  }

  /** The loop leaves the last entry that fits, or 1 when none does. */
  lemma {:induction false} LastFitIsLastFitting(xs: seq<real>, pixelsPerYear: real)
    ensures (forall i :: 0 <= i < |xs| ==> !Fits(xs[i], pixelsPerYear)) ==> LastFit(xs, pixelsPerYear) == 1.0
    ensures (exists i :: 0 <= i < |xs| && Fits(xs[i], pixelsPerYear)) ==>
              exists i :: 0 <= i < |xs| && LastFit(xs, pixelsPerYear) == xs[i] && Fits(xs[i], pixelsPerYear)
                          && forall j :: i < j < |xs| ==> !Fits(xs[j], pixelsPerYear)
  {
    if xs != [] {
      var n := |xs| - 1;
      LastFitIsLastFitting(xs[..n], pixelsPerYear);
      if !Fits(xs[n], pixelsPerYear) {
        if exists i :: 0 <= i < |xs| && Fits(xs[i], pixelsPerYear) {
          var i :| 0 <= i < |xs| && Fits(xs[i], pixelsPerYear);
          assert xs[..n][i] == xs[i];
        } else {
          forall i | 0 <= i < n ensures !Fits(xs[..n][i], pixelsPerYear) {
            assert xs[..n][i] == xs[i];
          }
        }
      } else {
        assert LastFit(xs, pixelsPerYear) == xs[n];
      }
    }
  }

  lemma TickIntervalsDescend()
    ensures |TickIntervals| == 9 && TickIntervals[0] == 1000.0
    ensures forall i, j :: 0 <= i < j < |TickIntervals| ==> TickIntervals[i] > TickIntervals[j] > 0.0
  {
  }

  /** The view's interval is the smallest listed interval that fits, and 1
      when none fits. */
  lemma TickIntervalIsSmallestFit(pixelsPerYear: real)
    ensures (forall i :: 0 <= i < |TickIntervals| ==> !Fits(TickIntervals[i], pixelsPerYear)) ==>
              TickInterval(pixelsPerYear) == 1.0
    ensures (exists i :: 0 <= i < |TickIntervals| && Fits(TickIntervals[i], pixelsPerYear)) ==>
              TickInterval(pixelsPerYear) in TickIntervals && Fits(TickInterval(pixelsPerYear), pixelsPerYear)
              && forall i :: 0 <= i < |TickIntervals| && Fits(TickIntervals[i], pixelsPerYear) ==>
                   TickInterval(pixelsPerYear) <= TickIntervals[i]
    ensures TickInterval(pixelsPerYear) > 0.0
  {
    LastFitIsLastFitting(TickIntervals, pixelsPerYear);
    TickIntervalsDescend();
  }

  /** Once the coarsest interval fits, a denser scale never picks a coarser
      interval. */
  lemma TickIntervalMonotone(p1: real, p2: real)
    requires 0.0 < p1 <= p2 && Fits(1000.0, p1)
    ensures TickInterval(p2) <= TickInterval(p1)
  {
    TickIntervalIsSmallestFit(p1);
    TickIntervalIsSmallestFit(p2);
    TickIntervalsDescend();
    assert Fits(TickIntervals[0], p1);
    var t := TickInterval(p1);
    var i :| 0 <= i < |TickIntervals| && TickIntervals[i] == t;
    assert t * p2 >= t * p1;
    assert Fits(TickIntervals[i], p2);
  }

  /** Below 0.06 pixels per year nothing fits and the interval falls back to
      1: at 0.05 pixels per year the interval is 1 year, at 0.1 it is 1000,
      so without that premise a denser scale can pick a coarser interval. */
  lemma TickIntervalNotMonotoneBelowFit()
    ensures TickInterval(0.05) == 1.0 && TickInterval(0.1) == 1000.0
  {
    TickIntervalsDescend();
    TickIntervalIsSmallestFit(0.05);
    TickIntervalIsSmallestFit(0.1);
    assert Fits(TickIntervals[0], 0.1);
  }

  /** At every zoom the page allows (at least 0.1) the premise holds. */
  lemma TickIntervalMonotoneOverPageZooms(z1: real, z2: real)
    requires 0.1 <= z1 <= z2
    ensures TickInterval(YAxisMultiplier * z2) <= TickInterval(YAxisMultiplier * z1)
  {
    TickIntervalMonotone(YAxisMultiplier * z1, YAxisMultiplier * z2);
  }

  /** The `for (const i of intervals)` loop choosing the interval. */
  method ChooseTickInterval(pixelsPerYear: real) returns (interval: real)
    ensures interval == TickInterval(pixelsPerYear)
  {
    var intervals := TickIntervals;
    interval := 1.0;
    assert intervals[..0] == [];
    for k := 0 to |intervals|
      invariant interval == LastFit(intervals[..k], pixelsPerYear)
    {
      var i := intervals[k];
      LastFitStep(intervals, k, pixelsPerYear);
      if Fits(i, pixelsPerYear) {
        interval := i;
      }
    }
    assert intervals[..|intervals|] == intervals;
  }

  lemma LastFitStep(xs: seq<real>, k: nat, pixelsPerYear: real)
    requires k < |xs|
    ensures LastFit(xs[..k + 1], pixelsPerYear)
            == if Fits(xs[k], pixelsPerYear) then xs[k] else LastFit(xs[..k], pixelsPerYear)
  {
    assert xs[..k + 1][..k] == xs[..k];
  }

  /** `Y_AXIS_MULTIPLIER * zoom` */
  function PixelsPerYear(zoom: real): real
  {
    YAxisMultiplier * zoom
  }

  /** The `yearMarkers` memo: no markers without a positive scale, otherwise
      exactly the multiples of the chosen interval inside the range. */
  method YearMarkers(minYear: real, maxYear: real, zoom: real) returns (markers: seq<real>)
    ensures PixelsPerYear(zoom) <= 0.0 ==> markers == []
    ensures PixelsPerYear(zoom) > 0.0 ==> markers == Multiples(minYear, maxYear, TickInterval(PixelsPerYear(zoom)))
  {
    var pixelsPerYear := PixelsPerYear(zoom);
    if pixelsPerYear <= 0.0 {
      return [];
    }
    var interval := ChooseTickInterval(pixelsPerYear);
    TickIntervalIsSmallestFit(pixelsPerYear);
    markers := TickLoop(minYear, maxYear, interval);
  }

  /** The `for (let year = start; year <= maxYear; year += interval)` loop,
      pushing each year not below `minYear`. */
  method TickLoop(minYear: real, maxYear: real, interval: real) returns (markers: seq<real>)
    requires interval > 0.0
    ensures markers == Multiples(minYear, maxYear, interval)
  {
    ghost var first := FirstIndex(minYear, interval);
    ghost var last := LastIndex(maxYear, interval);
    ghost var values := Multiples(minYear, maxYear, interval);
    var year := Ceil(minYear / interval) as real * interval;
    ghost var k := first;
    markers := [];
    while year <= maxYear
      invariant first <= k && year == Multiple(k, interval)
      invariant |markers| == k - first
      invariant k <= first || k <= last + 1
      invariant markers == values[..|markers|]
      decreases (if first < last + 1 then last + 1 else first) - k
    {
      AtMostHigh(k, maxYear, interval);
      AtLeastLow(k, minYear, interval);
      assert values[k - first] == year;
      MultipleNext(k, interval);
      if year >= minYear {
        markers := markers + [year];
      }
      year := year + interval;
      k := k + 1;
    }
    AtMostHigh(k, maxYear, interval);
  }

  /** `cursorYear`: null without a cursor position, otherwise the year at
      the cursor's offset within the scrolled content. */
  function CursorYear(cursorY: Option<real>, scrollTop: real, minYear: real, zoom: real): Option<real>
    requires zoom > 0.0
  {
    match cursorY
    case None => None
    case Some(y) => Some(minYear + (y + scrollTop) / (YAxisMultiplier * zoom))
  }

  /** The pixel offset of a year below the top of the content. */
  function Top(year: real, minYear: real, zoom: real): real
  {
    (year - minYear) * YAxisMultiplier * zoom
  }

  /** The pixel height of the whole range. */
  function TotalHeight(minYear: real, maxYear: real, zoom: real): real
  {
    (maxYear - minYear) * YAxisMultiplier * zoom
  }

  /** The year under the cursor is placed exactly at the cursor's offset. */
  lemma CursorYearInvertsTop(cursorY: real, scrollTop: real, minYear: real, zoom: real)
    requires zoom > 0.0
    ensures Top(CursorYear(Some(cursorY), scrollTop, minYear, zoom).value, minYear, zoom) == cursorY + scrollTop
  {
    var p := YAxisMultiplier * zoom;
    var y := minYear + (cursorY + scrollTop) / p;
    assert (y - minYear) * p == cursorY + scrollTop;
    assert (y - minYear) * YAxisMultiplier * zoom == (y - minYear) * p;
  }

  /** A cursor at a year's offset (unscrolled) reads that year back. */
  lemma TopInvertsCursorYear(year: real, minYear: real, zoom: real)
    requires zoom > 0.0
    ensures CursorYear(Some(Top(year, minYear, zoom)), 0.0, minYear, zoom) == Some(year)
  {
    var p := YAxisMultiplier * zoom;
    assert Top(year, minYear, zoom) == (year - minYear) * p;
    assert (year - minYear) * p / p == year - minYear;
  }

  /** Every year line lies between the top and the bottom of the content. */
  lemma MarkerTopInContent(minYear: real, maxYear: real, zoom: real, interval: real, v: real)
    requires zoom > 0.0 && interval > 0.0
    requires v in Multiples(minYear, maxYear, interval)
    ensures 0.0 <= Top(v, minYear, zoom) <= TotalHeight(minYear, maxYear, zoom)
  {
    MultiplesSound(minYear, maxYear, interval);
    var p := YAxisMultiplier * zoom;
    assert Top(v, minYear, zoom) == (v - minYear) * p;
    assert TotalHeight(minYear, maxYear, zoom) == (maxYear - minYear) * p;
    assert 0.0 * p <= (v - minYear) * p <= (maxYear - minYear) * p;
  }
}
