/**
 * `parseYear` of src/components/timeline/parse-year.ts, the older parser the
 * timeline view uses: the engine's `new Date(str)` first (guarded), then
 * "Month YYYY" with a month-name PREFIX, then a whitespace-padded bare year.
 * The input is not trimmed except by the last pattern itself.
 */
module ParseYear {
  import opened Wrappers
  import opened Text
  import opened Calendar
  import opened Patterns
  import DateUtils

  /** The engine's `new Date(str)`: an instant, or nothing for an invalid date. */
  type EngineParse = string -> Option<Instant>

  /** The guard on the engine branch: no ASCII letter, and splitting on
      /[\s,-/]/ gives more than one piece. */
  predicate EngineGuard(dateStr: string)
  {
    !HasAsciiLetter(dateStr) && HasSeparator(dateStr)
  }

  /** `MONTH_NAMES.findIndex(m => m.toLowerCase().startsWith(word.toLowerCase()))` */
  function PrefixMonthIndex(word: string): Option<nat>
  {
    FindIndex(DateUtils.MonthNames, BegunBy(word))
  }

  /** The test `findIndex` applies to each month name. */
  function BegunBy(word: string): string -> bool
  {
    (m: string) => IsPrefix(Lower(word), Lower(m))
  }

  /** "Month YYYY" with the first month, in calendar order, that the word begins. */
  function PrefixMonthYearRule(dateStr: string): Option<real>
  {
    match MonthYearMatch(dateStr)
    case None => None
    case Some(wy) =>
      match PrefixMonthIndex(wy.0)
      case None => None
      case Some(m) => Some(DigitsValue(wy.1) as real + (m as real + 0.5) / 12.0)
  }

  /** `parseYear(dateStr)` with `new Date` given as `engine`. */
  function ParseYear(dateStr: string, engine: EngineParse): Option<real>
  {
    if dateStr == [] then None
    else if engine(dateStr).Some? && EngineGuard(dateStr) then
      Some(EngineFractionalYear(engine(dateStr).value))
    else if PrefixMonthYearRule(dateStr).Some? then PrefixMonthYearRule(dateStr)
    else match PaddedFourDigits(dateStr)
      case Some(digits) => Some(DigitsValue(digits) as real)
      case None => None
  }

  lemma EmptyIsNull(engine: EngineParse)
    ensures ParseYear("", engine) == None
  {
  }

  /** An input with an ASCII letter, or without a separator, never reaches the
      engine: its result is the same whatever the engine does. */
  lemma GuardSkipsEngine(dateStr: string, e1: EngineParse, e2: EngineParse)
    requires HasAsciiLetter(dateStr) || !HasSeparator(dateStr)
    ensures ParseYear(dateStr, e1) == ParseYear(dateStr, e2)
  {
  }

  /** A guarded input the engine accepts gets the engine's fractional year,
      which lies in the instant's own year outside years 0..99. */
  lemma EngineBranchValue(dateStr: string, engine: EngineParse)
    requires dateStr != [] && engine(dateStr).Some? && EngineGuard(dateStr)
    ensures ParseYear(dateStr, engine) == Some(EngineFractionalYear(engine(dateStr).value))
    ensures var y := engine(dateStr).value.date.year;
            (y < 0 || 99 < y) ==> ParseYear(dateStr, engine).value.Floor == y
  {
    var t := engine(dateStr).value;
    if t.date.year < 0 || 99 < t.date.year {
      EngineFractionalYearInYear(t);
    }
  }

  /** "Ma" is March, not May: the first month in calendar order that the
      word begins wins. */
  lemma PrefixMarch()
    ensures PrefixMonthIndex("Ma") == Some(2)
  {
    var ms := DateUtils.MonthNames;
    LowerTwo("Ma");
    LowerTwo(ms[0]);
    LowerTwo(ms[1]);
    LowerTwo(ms[2]);
    assert Lower("Ma") == "ma";
    PrefixSearch("Ma", 2);
  }

  /** "ju" is June, not July. */
  lemma PrefixJune()
    ensures PrefixMonthIndex("ju") == Some(5)
  {
    var ms := DateUtils.MonthNames;
    LowerTwo("ju");
    LowerTwo(ms[0]);
    LowerTwo(ms[1]);
    LowerTwo(ms[2]);
    LowerTwo(ms[3]);
    LowerTwo(ms[4]);
    LowerTwo(ms[5]);
    assert Lower("ju") == "ju";
    PrefixSearch("ju", 5);
  }

  /** The first two characters of a lower-cased string. */
  lemma LowerTwo(s: string)
    requires |s| >= 2
    ensures Lower(s)[..2] == [LowerChar(s[0]), LowerChar(s[1])]
  {
    LowerAt(s, 0);
    LowerAt(s, 1);
  }

  lemma PrefixSearch(word: string, m: nat)
    requires m < 12 && IsPrefix(Lower(word), Lower(DateUtils.MonthNames[m]))
    requires forall k :: 0 <= k < m ==> !IsPrefix(Lower(word), Lower(DateUtils.MonthNames[k]))
    ensures PrefixMonthIndex(word) == Some(m)
  {
    FindIndexAt(DateUtils.MonthNames, BegunBy(word), m);
  }

  /** The month-year rule alone: the year plus the middle of the month, which
      lies strictly inside that year. */
  lemma PrefixRuleValue(dateStr: string, word: string, digits: string, m: nat)
    requires MonthYearMatch(dateStr) == Some((word, digits)) && PrefixMonthIndex(word) == Some(m)
    ensures PrefixMonthYearRule(dateStr).Some?
    ensures PrefixMonthYearRule(dateStr).value == DigitsValue(digits) as real + (m as real + 0.5) / 12.0
    ensures m < 12
  {
    var r := PrefixMonthYearRule(dateStr);
    assert r.Some?;
  }

  /** The month-year rule (reached when the engine branch is not taken) puts
      the value in the middle of the chosen month, strictly inside the year. */
  lemma MonthYearValue(dateStr: string, engine: EngineParse, word: string, digits: string, m: nat)
    requires dateStr != [] && !(engine(dateStr).Some? && EngineGuard(dateStr))
    requires MonthYearMatch(dateStr) == Some((word, digits)) && PrefixMonthIndex(word) == Some(m)
    ensures ParseYear(dateStr, engine).Some?
    ensures var year := DigitsValue(digits) as real;
            && ParseYear(dateStr, engine).value == year + (m as real + 0.5) / 12.0
            && year < ParseYear(dateStr, engine).value < year + 1.0
  {
    PrefixRuleValue(dateStr, word, digits, m);
  }

  /** A bare four-digit year never reaches the engine (it holds no separator)
      and is that integer. */
  lemma BareYearValue(digits: string, engine: EngineParse)
    requires IsFourDigits(digits)
    ensures ParseYear(digits, engine) == Some(DigitsValue(digits) as real)
  {
    assert [] + digits + [] == digits;
    assert !HasSeparator(digits) by {
      forall k | 0 <= k < |digits| ensures !IsSeparator(digits[k]) {
        assert IsDigit(digits[k]);
      }
    }
    PaddedYearValue([], digits, [], engine);
  }

  /** A whitespace-padded four-digit year the engine rejects is that integer.
      (Padding is a separator, so an engine that accepts the padded string
      decides the result instead.) */
  lemma PaddedYearValue(lead: string, digits: string, trail: string, engine: EngineParse)
    requires AllSpaces(lead) && AllSpaces(trail) && IsFourDigits(digits)
    requires !(engine(lead + digits + trail).Some? && EngineGuard(lead + digits + trail))
    ensures ParseYear(lead + digits + trail, engine) == Some(DigitsValue(digits) as real)
  {
    var s := lead + digits + trail;
    PaddedFourDigitsMatches(lead, digits, trail);
    assert MonthYearMatch(s).None? by {
      if MonthYearMatch(s).Some? {
        var w := SearchMonthYear(s, 0).value;
        BareYearHasNoMonthYear(lead, digits, trail, w.start, w.split);
      }
    }
  }

  /** Whitespace around four digits holds no word-space-four-digits match. */
  lemma BareYearHasNoMonthYear(lead: string, digits: string, trail: string, i: nat, j: nat)
    requires AllSpaces(lead) && AllSpaces(trail) && IsFourDigits(digits)
    ensures !MatchesAt(lead + digits + trail, i, j)
  {
    var s := lead + digits + trail;
    if i < j && j + 5 <= |s| && IsSpace(s[j]) && AllDigits(s[j + 1..j + 5]) {
      // four digits in a row after position j: they are `digits` itself, so
      // the space at j is the last of `lead` and the word starts inside `lead`
      assert s[j + 1..j + 5][0] == s[j + 1] && s[j + 1..j + 5][3] == s[j + 4];
      assert j + 1 == |lead|;
      assert s[i] == lead[i];
      SpaceIsNotWordChar(s[i]);
    }
  }

  /** An input matching none of the rules, and not taken by the engine, is null. */
  lemma NoRuleIsNull(dateStr: string, engine: EngineParse)
    requires !(engine(dateStr).Some? && EngineGuard(dateStr))
    requires PrefixMonthYearRule(dateStr).None? && PaddedFourDigits(dateStr).None?
    ensures ParseYear(dateStr, engine) == None
  {
  }
}
