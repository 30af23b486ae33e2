/**
 * `YearScale` of src/components/timeline/year-scale.tsx: choose a marker
 * interval from a coarse-to-fine table, enumerate its multiples inside the
 * visible range and label each one with the component's own copy of
 * `getMarkerLabel`.
 */
module YearScale {
  import opened Wrappers
  import opened Text
  import opened Calendar
  import opened MarkerLabel
  import opened Ticks

  /** One entry of `INTERVALS`: a spacing in years and the marker type it uses. */
  datatype Interval = Interval(value: real, kind: Granularity)

  /** `INTERVALS`, coarsest first. */
  const Intervals: seq<Interval> := [
    Interval(1000.0, Year), Interval(500.0, Year), Interval(250.0, Year),
    Interval(100.0, Year), Interval(50.0, Year), Interval(25.0, Year),
    Interval(10.0, Year), Interval(5.0, Year), Interval(2.0, Year), Interval(1.0, Year),
    Interval(1.0 / 2.0, Month), Interval(1.0 / 4.0, Month), Interval(1.0 / 12.0, Month),
    Interval(7.0 / 365.25, Day), Interval(1.0 / 365.25, Day)
  ]

  /** `MIN_PX_PER_INTERVAL` */
  const MinPxPerInterval: real := 80.0

  /** The test `find` applies: the entry is at least the ideal spacing. */
  function WideEnough(ideal: real): Interval -> bool
  {
    (i: Interval) => i.value >= ideal
  }

  /** `INTERVALS.find(i => i.value >= idealInterval) || INTERVALS[INTERVALS.length - 1]`
      with `idealInterval = MIN_PX_PER_INTERVAL / pixelsPerYear`. */
  function ChooseInterval(pixelsPerYear: real): Interval
    requires pixelsPerYear > 0.0
  {
    match FindIndex(Intervals, WideEnough(MinPxPerInterval / pixelsPerYear))
    case Some(i) => Intervals[i]
    case None => Intervals[|Intervals| - 1]
  }

  /** Every entry is positive; the values of at least one year are 'year'
      entries, the halves, quarters and twelfths 'month' and the week and the
      day 'day'. */
  lemma IntervalTags()
    ensures forall i :: 0 <= i < |Intervals| ==> Intervals[i].value > 0.0
    ensures forall i :: 0 <= i < |Intervals| ==> (Intervals[i].value >= 1.0 <==> Intervals[i].kind == Year)
    ensures forall i :: 0 <= i < |Intervals| ==>
              (Intervals[i].kind == Month <==> Intervals[i].value in {1.0 / 2.0, 1.0 / 4.0, 1.0 / 12.0})
    ensures forall i :: 0 <= i < |Intervals| ==>
              (Intervals[i].kind == Day <==> Intervals[i].value in {7.0 / 365.25, 1.0 / 365.25})
  {
  }

  /** The table runs from 1000 years down to one day, strictly decreasing. */
  lemma IntervalsDescend()
    ensures |Intervals| == 15
    ensures Intervals[0] == Interval(1000.0, Year)
    ensures Intervals[14] == Interval(1.0 / 365.25, Day)
    ensures forall i, j :: 0 <= i < j < |Intervals| ==> Intervals[i].value > Intervals[j].value
  {
  }

  /** As written, `find` over a coarse-to-fine table takes the COARSEST entry
      that is wide enough: 1000 years whenever the scale shows at least 0.08
      pixels per year. */
  lemma CoarsestWhenAnyFits(pixelsPerYear: real)
    requires pixelsPerYear >= 0.08
    ensures ChooseInterval(pixelsPerYear) == Interval(1000.0, Year)
  {
    IdealAtMost(pixelsPerYear);
    IntervalsDescend();
    FindIndexAt(Intervals, WideEnough(MinPxPerInterval / pixelsPerYear), 0);
  }

  lemma IdealAtMost(pixelsPerYear: real)
    requires pixelsPerYear >= 0.08
    ensures MinPxPerInterval / pixelsPerYear <= 1000.0
  {
    assert MinPxPerInterval / pixelsPerYear * pixelsPerYear == 80.0;
  }

  lemma IdealAbove(pixelsPerYear: real)
    requires 0.0 < pixelsPerYear < 0.08
    ensures MinPxPerInterval / pixelsPerYear > 1000.0
  {
    assert MinPxPerInterval / pixelsPerYear * pixelsPerYear == 80.0;
  }

  /** Below 0.08 pixels per year no entry is wide enough and the one-day
      entry is used. */
  lemma FinestWhenNoneFits(pixelsPerYear: real)
    requires 0.0 < pixelsPerYear < 0.08
    ensures ChooseInterval(pixelsPerYear) == Interval(1.0 / 365.25, Day)
  {
    IdealAbove(pixelsPerYear);
    IntervalsDescend();
    var ideal := MinPxPerInterval / pixelsPerYear;
    forall i | 0 <= i < |Intervals| ensures !WideEnough(ideal)(Intervals[i]) {
      assert i == 0 || Intervals[i].value < Intervals[0].value;
    }
    FindIndexNone(Intervals, WideEnough(ideal));
  }

  /** So only the two ends of the table are ever used. */
  lemma ChosenIsAnEnd(pixelsPerYear: real)
    requires pixelsPerYear > 0.0
    ensures ChooseInterval(pixelsPerYear) in {Interval(1000.0, Year), Interval(1.0 / 365.25, Day)}
  {
    if pixelsPerYear >= 0.08 {
      CoarsestWhenAnyFits(pixelsPerYear);
    } else {
      FinestWhenNoneFits(pixelsPerYear);
    }
  }

  /** The chosen spacing is positive. */
  lemma ChosenIsPositive(pixelsPerYear: real)
    requires pixelsPerYear > 0.0
    ensures ChooseInterval(pixelsPerYear).value > 0.0
  {
    ChosenIsAnEnd(pixelsPerYear);
  }

  /** A local date and time as `new Date(y, m)` and the local getters see it;
      the model's local time has no daylight-saving shifts. */
  datatype LocalDateTime = LocalDateTime(date: Date, hours: nat)

  /** `new Date(year, 0)`: local midnight on January 1, years 0..99 taken as 19xx. */
  function StartOfYear(year: int): (t: LocalDateTime)
    ensures t.date.year == EngineYear(year)
    ensures ValidDate(t.date) && t.date.month == 0 && t.date.day == 1 && t.hours == 0
  {
    LocalDateTime(Date(EngineYear(year), 0, 1), 0)
  }

  /** `t.setDate(d)` for `d >= 1`: day `d` of the same month, rolling into
      later months, at the same time of day. */
  function SetDate(t: LocalDateTime, d: int): LocalDateTime
    requires t.date.month < 12 && d >= 1
  {
    LocalDateTime(DateOfOffset(t.date.year, DaysBeforeMonth(t.date.year, t.date.month) + d - 1), t.hours)
  }

  /** The local `getMarkerLabel` of year-scale.tsx. */
  function ScaleLabel(x: real, g: Granularity): string
  {
    var year := x.Floor;
    match g
    case Year => IntToString(year)
    case Month =>
      if Remainder(x) < 0.01 then IntToString(year)
      else
        var m := MonthIndex(x);
        if 0 <= m < 12 then MonthAbbreviations[m] else ""
    case Day =>
      var dayOfYear := Round(Remainder(x) * DaysInYear(year) as real);
      var t := SetDate(StartOfYear(year), dayOfYear + 1);
      if t.date.day == 1 && t.hours < 1 then MonthAbbreviations[t.date.month] + " " + IntToString(year)
      else MonthAbbreviations[t.date.month] + " " + NatToString(t.date.day)
  }

  /** The component's copy agrees with get-marker-label.ts everywhere:
      `setDate(dayOfYear + 1)` on January 1 is `new Date(year, 0, dayOfYear + 1)`,
      and the time stays at midnight. */
  lemma ScaleLabelAgrees(x: real, g: Granularity)
    ensures ScaleLabel(x, g) == Label(x, g)
  {
    if g == Day {
      var year := x.Floor;
      var dayOfYear := Round(Remainder(x) * DaysInYear(year) as real);
      assert dayOfYear + 1 == DayNumber(x);
      var start := StartOfYear(year);
      assert start.date.year == EngineYear(year) && start.date.month == 0;
      assert DaysBeforeMonth(start.date.year, 0) == 0;
      assert SetDate(start, dayOfYear + 1).date == DateOfOffset(EngineYear(year), dayOfYear);
    }
  }

  /** A marker: its fractional year and the text shown beside it. */
  datatype Marker = Marker(value: real, text: string)

  /** `yAxisMultiplier * zoom` */
  function PixelsPerYear(zoom: real, yAxisMultiplier: real): real
  {
    yAxisMultiplier * zoom
  }

  /** The `useMemo` of `YearScale`: no markers without a positive scale;
      otherwise the multiples of the chosen interval inside the range, each
      labelled at the chosen granularity. */
  method ScaleMarkers(minYear: real, maxYear: real, zoom: real, yAxisMultiplier: real)
    returns (markers: seq<Marker>)
    ensures PixelsPerYear(zoom, yAxisMultiplier) <= 0.0 ==> markers == []
    ensures PixelsPerYear(zoom, yAxisMultiplier) > 0.0 ==>
              var iv := ChooseInterval(PixelsPerYear(zoom, yAxisMultiplier));
              LabelledMultiples(markers, minYear, maxYear, iv.value, iv.kind)
  {
    var pixelsPerYear := PixelsPerYear(zoom, yAxisMultiplier);
    if pixelsPerYear <= 0.0 {
      markers := [];
    } else {
      var best := ChooseInterval(pixelsPerYear);
      ChosenIsPositive(pixelsPerYear);
      markers := MarkerLoop(minYear, maxYear, best.value, best.kind);
    }
  }

  /** `markers` are the multiples of `interval` in the range, in order, with
      their labels at granularity `kind`. */
  ghost predicate LabelledMultiples(markers: seq<Marker>, minYear: real, maxYear: real, interval: real, kind: Granularity)
  {
    && interval > 0.0
    && var values := Multiples(minYear, maxYear, interval);
       |markers| == |values|
       && forall j :: 0 <= j < |markers| ==>
            markers[j].value == values[j] && markers[j].text == Label(values[j], kind)
  }

  /** The `for` loop of the `useMemo` (`year += interval` from
      `Math.ceil(minYear / interval) * interval`, skipping values below
      `minYear`, pushing the value and its label). */
  method MarkerLoop(minYear: real, maxYear: real, interval: real, kind: Granularity)
    returns (markers: seq<Marker>)
    requires interval > 0.0
    ensures LabelledMultiples(markers, minYear, maxYear, interval, kind)
  {
    ghost var first := FirstIndex(minYear, interval);
    ghost var last := LastIndex(maxYear, interval);
    ghost var values := Multiples(minYear, maxYear, interval);
    var year := Ceil(minYear / interval) as real * interval;
    ghost var k := first;
    markers := [];
    while year <= maxYear
      invariant first <= k && year == Multiple(k, interval)
      invariant |markers| == k - first
      invariant k <= first || k <= last + 1
      invariant forall j :: 0 <= j < |markers| ==>
                  markers[j].value == values[j] && markers[j].text == Label(values[j], kind)
      decreases (if first < last + 1 then last + 1 else first) - k
    {
      AtMostHigh(k, maxYear, interval);
      AtLeastLow(k, minYear, interval);
      assert values[k - first] == year;
      MultipleNext(k, interval);
      // `parseFloat(year.toPrecision(12))` is the identity on exact values
      var roundedYear := year;
      if roundedYear >= minYear {
        LabelledStep(markers, values, roundedYear, kind);
        markers := markers + [Marker(roundedYear, ScaleLabel(roundedYear, kind))];
      }
      year := year + interval;
      k := k + 1;
    }
    AtMostHigh(k, maxYear, interval);
  }

  /** Pushing the next value with its local label extends the labelled prefix. */
  lemma LabelledStep(markers: seq<Marker>, values: seq<real>, year: real, kind: Granularity)
    requires |markers| < |values| && values[|markers|] == year
    requires forall j :: 0 <= j < |markers| ==>
               markers[j].value == values[j] && markers[j].text == Label(values[j], kind)
    ensures var next := markers + [Marker(year, ScaleLabel(year, kind))];
            forall j :: 0 <= j < |next| ==>
              next[j].value == values[j] && next[j].text == Label(values[j], kind)
  {
    ScaleLabelAgrees(year, kind);
  }

  /** The pixel offset of a marker below the top of the scale. */
  function MarkerTop(value: real, minYear: real, zoom: real, yAxisMultiplier: real): real
  {
    (value - minYear) * yAxisMultiplier * zoom
  }

  /** Markers sit inside the scale: from 0 at `minYear` to the pixel height
      of the whole range at `maxYear`. */
  lemma MarkerTopInRange(minYear: real, maxYear: real, zoom: real, yAxisMultiplier: real, interval: real, v: real)
    requires yAxisMultiplier * zoom > 0.0 && interval > 0.0
    requires v in Multiples(minYear, maxYear, interval)
    ensures 0.0 <= MarkerTop(v, minYear, zoom, yAxisMultiplier)
              <= MarkerTop(maxYear, minYear, zoom, yAxisMultiplier)
  {
    var p := yAxisMultiplier * zoom;
    MultiplesSound(minYear, maxYear, interval);
    ScaledInOrder(0.0, v - minYear, maxYear - minYear, p);
    assert MarkerTop(v, minYear, zoom, yAxisMultiplier) == (v - minYear) * p;
    assert MarkerTop(maxYear, minYear, zoom, yAxisMultiplier) == (maxYear - minYear) * p;
  }

  /** Scaling by a positive factor keeps order. */
  lemma ScaledInOrder(a: real, b: real, c: real, p: real)
    requires a <= b <= c && p > 0.0
    ensures a * p <= b * p <= c * p
  {
  }
}
