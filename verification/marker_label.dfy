/**
 * `getMarkerLabel` of src/components/timeline/get-marker-label.ts: the text
 * shown beside a scale marker at a fractional year, for year, month or day
 * markers.
 */
module MarkerLabel {
  import opened Text
  import opened Calendar

  /** The marker `type`: 'year' | 'month' | 'day'. */
  datatype Granularity = Year | Month | Day

  const MonthAbbreviations: seq<string> :=
    ["Jan", "Feb", "Mar", "Apr", "May", "Jun", "Jul", "Aug", "Sep", "Oct", "Nov", "Dec"]

  /** `Math.round`: halves round up. */
  function Round(v: real): (n: int)
    ensures v - 0.5 < n as real <= v + 0.5
  {
    (v + 0.5).Floor
  }

  /** `x - Math.floor(x)` */
  function Remainder(x: real): (r: real)
    ensures 0.0 <= r < 1.0
    ensures x.Floor as real + r == x
  {
    x - x.Floor as real
  }

  /** `Math.floor(remainder * 12)`: the month the remainder falls in. */
  function MonthIndex(x: real): (m: int)
    ensures 0 <= m < 12
    ensures m as real / 12.0 <= Remainder(x) < (m + 1) as real / 12.0
  {
    var r := Remainder(x);
    var m := (r * 12.0).Floor;
    assert m as real <= r * 12.0 < m as real + 1.0;
    m
  }

  /** `Math.round(remainder * daysInYear) + 1`: the 1-based day number of a
      day marker, with `daysInYear` taken from the marker's own year. */
  function DayNumber(x: real): (n: int)
    ensures 1 <= n <= DaysInYear(x.Floor) + 1
  {
    var d := DaysInYear(x.Floor) as real;
    var r := Remainder(x);
    assert 0.0 <= r * d < d;
    Round(r * d) + 1
  }

  /** `new Date(year, 0, dayNumber)`: January `dayNumber` of the engine year,
      rolled over into the following months (and years). */
  function DayMarkerDate(x: real): Date
  {
    DateOfOffset(EngineYear(x.Floor), DayNumber(x) - 1)
  }

  /** `getMarkerLabel(x, type)` */
  function Label(x: real, g: Granularity): string
  {
    var year := x.Floor;
    match g
    case Year => IntToString(year)
    case Month =>
      if Remainder(x) < 0.01 then IntToString(year)
      else
        var m := MonthIndex(x);
        if 0 <= m < 12 then MonthAbbreviations[m] else ""
    case Day =>
      var date := DayMarkerDate(x);
      if date.day == 1 then MonthAbbreviations[date.month] + " " + IntToString(year)
      else MonthAbbreviations[date.month] + " " + NatToString(date.day)
  }

  /** A year label is the integer part of `x` in decimal: it reads back as
      the year that contains `x`. */
  lemma YearLabelReadsBack(x: real)
    ensures var y := ParseIntText(Label(x, Year));
            y as real <= x < y as real + 1.0
  {
    IntToStringRoundTrip(x.Floor);
  }

  /** A month marker within a hundredth of a year after January 1 shows the year. */
  lemma MonthLabelAtYearStart(x: real)
    requires x - x.Floor as real < 0.01
    ensures ParseIntText(Label(x, Month)) == x.Floor
  {
    IntToStringRoundTrip(x.Floor);
  }

  /** Any other month marker shows the abbreviation of the month, counted in
      twelfths of the year, that `x` falls in; the empty fallback is never used. */
  lemma MonthLabelNamesMonth(x: real)
    requires x - x.Floor as real >= 0.01
    ensures exists m :: 0 <= m < 12 && Label(x, Month) == MonthAbbreviations[m]
                        && x.Floor as real + m as real / 12.0 <= x < x.Floor as real + (m + 1) as real / 12.0
  {
    var m := MonthIndex(x);
    assert Label(x, Month) == MonthAbbreviations[m];
  }

  /** The day number is the remainder's share of the year, rounded to the
      nearest day, plus one. */
  lemma DayNumberRounds(x: real)
    ensures var d := DaysInYear(x.Floor) as real;
            var n := DayNumber(x) as real;
            n - 1.5 <= Remainder(x) * d < n - 0.5
  {
  }

  /** For a year the engine does not remap (outside 0..99), a day number
      within the year names that calendar day: the label is the abbreviation
      of its month followed by the day of the month, or by the year on the
      first day of a month. */
  lemma DayLabelIsCalendarDate(x: real, date: Date)
    requires x.Floor < 0 || 99 < x.Floor
    requires ValidDate(date) && date.year == x.Floor && DayOfYear(date) == DayNumber(x) - 1
    ensures date.day == 1 ==> Label(x, Day) == MonthAbbreviations[date.month] + " " + IntToString(x.Floor)
    ensures date.day != 1 ==> Label(x, Day) == MonthAbbreviations[date.month] + " " + NatToString(date.day)
  {
    var y := x.Floor;
    assert EngineYear(y) == y;
    assert DayMarkerDate(x) == DateOfOffset(y, DayOfYear(date));
    DateInYearOfDayOfYear(date);
    assert DayMarkerDate(x) == date;
  }

  /** Every day number of the year has such a calendar date. */
  lemma DayNumberHasDate(x: real)
    requires DayNumber(x) <= DaysInYear(x.Floor)
    ensures exists date :: ValidDate(date) && date.year == x.Floor && DayOfYear(date) == DayNumber(x) - 1
  {
    var date := DateInYear(x.Floor, DayNumber(x) - 1);
  }

  /** When the remainder rounds to a whole year the date rolls over to
      January 1 of the next year, and the label is "Jan" with the marker's
      own (un-advanced) year. */
  lemma DayLabelRollsOver(x: real)
    requires x.Floor < 0 || 99 < x.Floor
    requires DayNumber(x) == DaysInYear(x.Floor) + 1
    ensures Label(x, Day) == "Jan " + IntToString(x.Floor)
  {
    var y := x.Floor;
    assert DateOfOffset(y + 1, 0) == DateInYear(y + 1, 0);
    assert DateInYear(y + 1, 0) == Date(y + 1, 0, 1) by {
      DateInYearOfDayOfYear(Date(y + 1, 0, 1));
    }
  }
}
