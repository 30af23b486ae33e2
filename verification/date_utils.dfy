/**
 * `parseDateToFractionalYear` of src/lib/date-utils.ts: four rules tried in
 * order on the trimmed input, the first that yields a value winning:
 * `YYYY-MM-DD`, "Month YYYY" with a full month name, a bare four-digit year,
 * and finally the engine's own date parser, which is a parameter here.
 */
module DateUtils {
  import opened Wrappers
  import opened Text
  import opened Calendar
  import opened Patterns

  const MonthNames: seq<string> := ["January", "February", "March", "April", "May", "June",
                                    "July", "August", "September", "October", "November", "December"]

  /** The engine's date parser (`Date.parse`): an instant, or nothing for NaN. */
  type EngineParse = string -> Option<Instant>

  /** Rule 1 on a `YYYY-MM-DD` string: year plus the whole days between
      `Date.UTC(year, 0, 1)` and `Date.UTC(year, month - 1, day)`, over the
      days of `year`. Out-of-range months and days roll over as `Date.UTC` does. */
  function IsoFractionalYear(t: string): real
    requires IsIsoDate(t)
  {
    var year := DigitsValue(t[0..4]);
    var month := DigitsValue(t[5..7]);
    var day := DigitsValue(t[8..10]);
    year as real + DaysFromYearStart(EngineYear(year), month - 1, day) as real / DaysInYear(year) as real
  }

  /** `MONTH_NAMES.findIndex(m => m.toLowerCase() === word.toLowerCase())` */
  function FullMonthIndex(word: string): Option<nat>
  {
    FindIndex(MonthNames, (m: string) => Lower(m) == Lower(word))
  }

  /** Rule 2: the leftmost word-space-four-digits match, kept only when the
      word is a full month name; the value is the middle of that month. */
  function MonthYearRule(t: string): Option<real>
  {
    match MonthYearMatch(t)
    case None => None
    case Some(wy) =>
      match FullMonthIndex(wy.0)
      case None => None
      case Some(m) => Some(DigitsValue(wy.1) as real + (m as real + 0.5) / 12.0)
  }

  /** `parseDateToFractionalYear(dateStr)` with `Date.parse` given as `engine`. */
  function ParseDateToFractionalYear(dateStr: string, engine: EngineParse): Option<real>
  {
    if dateStr == [] then None
    else
      var t := Trim(dateStr);
      if IsIsoDate(t) then Some(IsoFractionalYear(t))
      else if MonthYearRule(t).Some? then MonthYearRule(t)
      else if IsFourDigits(t) then Some(DigitsValue(t) as real)
      else match engine(t)
        case Some(instant) => Some(EngineFractionalYear(instant))
        case None => None
  }

  lemma EmptyIsNull(engine: EngineParse)
    ensures ParseDateToFractionalYear("", engine) == None
  {
  }

  /** Rule 1 for a real calendar date outside years 0..99: exactly the
      0-based day of the year over the days in the year, whatever the engine. */
  lemma IsoRuleValue(dateStr: string, engine: EngineParse)
    requires IsIsoDate(Trim(dateStr))
    requires var t := Trim(dateStr);
             var y := DigitsValue(t[0..4]);
             && y >= 100 && 1 <= DigitsValue(t[5..7])
             && ValidDate(Date(y, DigitsValue(t[5..7]) - 1, DigitsValue(t[8..10])))
    ensures var t := Trim(dateStr);
            var y := DigitsValue(t[0..4]);
            var d := Date(y, DigitsValue(t[5..7]) - 1, DigitsValue(t[8..10]));
            && ParseDateToFractionalYear(dateStr, engine)
               == Some(y as real + DayOfYear(d) as real / DaysInYear(y) as real)
            && y as real <= ParseDateToFractionalYear(dateStr, engine).value < y as real + 1.0
  {
    IsoRuleApplies(dateStr, engine);
    var t := Trim(dateStr);
    var y := DigitsValue(t[0..4]);
    var d := Date(y, DigitsValue(t[5..7]) - 1, DigitsValue(t[8..10]));
    assert EngineYear(y) == y;
    DaysFromYearStartOfValidDate(d);
    assert IsoFractionalYear(t) == y as real + DayOfYear(d) as real / DaysInYear(y) as real;
    ShareOfYear(DayOfYear(d), DaysInYear(y));
  }

  /** A day count below the year's length is less than a whole year. */
  lemma ShareOfYear(k: nat, n: nat)
    requires k < n
    ensures 0.0 <= k as real / n as real < 1.0
  {
  }

  lemma IsoRuleApplies(dateStr: string, engine: EngineParse)
    requires IsIsoDate(Trim(dateStr))
    ensures ParseDateToFractionalYear(dateStr, engine) == Some(IsoFractionalYear(Trim(dateStr)))
  {
  }

  /** "2001-03-01" is day 59 (0-based) of the 365 days of 2001. */
  lemma IsoExample(engine: EngineParse)
    ensures ParseDateToFractionalYear("2001-03-01", engine) == Some(2001.0 + 59.0 / 365.0)
  {
    TrimUnpadded("2001-03-01");
    IsoExampleShape();
    IsoRuleApplies("2001-03-01", engine);
    IsoExampleValue();
  }

  lemma IsoExampleShape()
    ensures IsIsoDate("2001-03-01")
  {
    var s := "2001-03-01";
    assert s[0..4] == "2001" && s[5..7] == "03" && s[8..10] == "01";
    assert AllDigits("2001") && AllDigits("03") && AllDigits("01");
  }

  lemma IsoExampleValue()
    ensures IsoFractionalYear("2001-03-01") == 2001.0 + 59.0 / 365.0
  {
    var s := "2001-03-01";
    assert s[0..4] == "2001" && s[5..7] == "03" && s[8..10] == "01";
    FourDigitsValue("2001");
    TwoDigitsValue("03");
    TwoDigitsValue("01");
    assert DigitsValue(s[0..4]) == 2001 && DigitsValue(s[5..7]) == 3 && DigitsValue(s[8..10]) == 1;
    assert DaysInYear(2001) == 365 && EngineYear(2001) == 2001;
    assert DaysBeforeMonth(2001, 2) == 59;
    assert DaysFromYearStart(2001, 2, 1) == 59;
  }

  /** Rule 2: when the input is not `YYYY-MM-DD` and the leftmost match names a
      full month (any letter case), the value lies strictly inside the year,
      in the middle of that month, whatever the engine. */
  lemma MonthYearRuleValue(dateStr: string, engine: EngineParse, word: string, digits: string, m: nat)
    requires dateStr != [] && !IsIsoDate(Trim(dateStr))
    requires MonthYearMatch(Trim(dateStr)) == Some((word, digits))
    requires m < 12 && Lower(MonthNames[m]) == Lower(word)
    ensures var year := DigitsValue(digits) as real;
            && ParseDateToFractionalYear(dateStr, engine) == Some(year + (m as real + 0.5) / 12.0)
            && year < ParseDateToFractionalYear(dateStr, engine).value < year + 1.0
  {
    var k := FullMonthIndex(word);
    assert k.Some?;
    if k.value < m {
      assert Lower(MonthNames[k.value]) == Lower(MonthNames[m]);
      DistinctMonthNames(k.value, m);
    }
  }

  /** The first three letters of each month name, lower-cased. */
  const MonthKeys: seq<string> := ["jan", "feb", "mar", "apr", "may", "jun",
                                   "jul", "aug", "sep", "oct", "nov", "dec"]

  lemma MonthKey(i: nat)
    requires i < 12
    ensures |MonthNames[i]| >= 3
    ensures [LowerChar(MonthNames[i][0]), LowerChar(MonthNames[i][1]), LowerChar(MonthNames[i][2])] == MonthKeys[i]
  {
    if i == 0 {} else if i == 1 {} else if i == 2 {} else if i == 3 {} else if i == 4 {} else if i == 5 {}
    else if i == 6 {} else if i == 7 {} else if i == 8 {} else if i == 9 {} else if i == 10 {} else {}
  }

  lemma LowerFirstThree(a: string)
    requires |a| >= 3
    ensures Lower(a)[..3] == [LowerChar(a[0]), LowerChar(a[1]), LowerChar(a[2])]
  {
    LowerAt(a, 0);
    LowerAt(a, 1);
    LowerAt(a, 2);
  }

  /** No two full month names are equal ignoring case. */
  lemma DistinctMonthNames(i: nat, j: nat)
    requires i < j < 12
    ensures Lower(MonthNames[i]) != Lower(MonthNames[j])
  {
    MonthKey(i);
    MonthKey(j);
    assert MonthKeys[i] != MonthKeys[j];
    DifferentKeys(MonthNames[i], MonthNames[j]);
  }

  /** Strings whose lower-cased first three letters differ differ after lower-casing. */
  lemma DifferentKeys(a: string, b: string)
    requires |a| >= 3 && |b| >= 3
    requires [LowerChar(a[0]), LowerChar(a[1]), LowerChar(a[2])] != [LowerChar(b[0]), LowerChar(b[1]), LowerChar(b[2])]
    ensures Lower(a) != Lower(b)
  {
    LowerFirstThree(a);
    LowerFirstThree(b);
  }

  /** A word that is not a full month name yields nothing from rule 2, and the
      later rules decide. */
  lemma MonthYearRuleFallsThrough(dateStr: string, engine: EngineParse, word: string, digits: string)
    requires dateStr != [] && !IsIsoDate(Trim(dateStr))
    requires MonthYearMatch(Trim(dateStr)) == Some((word, digits))
    requires forall m :: 0 <= m < 12 ==> Lower(MonthNames[m]) != Lower(word)
    ensures var t := Trim(dateStr);
            ParseDateToFractionalYear(dateStr, engine)
            == if IsFourDigits(t) then Some(DigitsValue(t) as real)
               else match engine(t)
                 case Some(instant) => Some(EngineFractionalYear(instant))
                 case None => None
  {
  }

  /** Rule 3: an input that trims to exactly four digits is that integer. */
  lemma BareYearValue(dateStr: string, engine: EngineParse)
    requires IsFourDigits(Trim(dateStr))
    ensures ParseDateToFractionalYear(dateStr, engine) == Some(DigitsValue(Trim(dateStr)) as real)
  {
  }

  lemma PaddedExampleTrims()
    ensures Trim(" 2001 ") == "2001"
  {
    assert AllSpaces(" ") && !IsSpace('2') && !IsSpace('1');
    TrimSurrounded(" ", "2001", " ");
    assert " " + "2001" + " " == " 2001 ";
  }

  lemma BareYearExample(engine: EngineParse)
    ensures ParseDateToFractionalYear(" 2001 ", engine) == Some(2001.0)
  {
    PaddedExampleTrims();
    assert IsFourDigits("2001");
    FourDigitsValue("2001");
    assert DigitsValue("2001") == 2001;
    BareYearValue(" 2001 ", engine);
  }

  /** When no rule matches and the engine fails too, the result is null, never a number. */
  lemma NoRuleIsNull(dateStr: string, engine: EngineParse)
    requires !IsIsoDate(Trim(dateStr)) && MonthYearRule(Trim(dateStr)).None?
    requires !IsFourDigits(Trim(dateStr)) && engine(Trim(dateStr)).None?
    ensures ParseDateToFractionalYear(dateStr, engine) == None
  {
  }

  /** The engine is consulted only when none of the three rules applies. */
  lemma EngineIsLastResort(dateStr: string, e1: EngineParse, e2: EngineParse)
    requires IsIsoDate(Trim(dateStr)) || MonthYearRule(Trim(dateStr)).Some? || IsFourDigits(Trim(dateStr))
    ensures ParseDateToFractionalYear(dateStr, e1) == ParseDateToFractionalYear(dateStr, e2)
  {
  }
}
