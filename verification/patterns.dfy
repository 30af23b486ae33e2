/**
 * The regular expressions the two date parsers test, written as explicit
 * matchers over strings:
 *   /^(\d{4})-(\d{2})-(\d{2})$/, /(\w+)\s(\d{4})/ (unanchored, leftmost match),
 *   /^(\d{4})$/, /^\s*(\d{4})\s*$/, /[a-zA-Z]/ and the split class /[\s,-/]/.
 */
module Patterns {
  import opened Wrappers
  import opened Text

  /** /^(\d{4})-(\d{2})-(\d{2})$/ */
  predicate IsIsoDate(s: string)
  {
    |s| == 10 && AllDigits(s[0..4]) && s[4] == '-' && AllDigits(s[5..7]) && s[7] == '-'
    && AllDigits(s[8..10])
  }

  /** /^(\d{4})$/ */
  predicate IsFourDigits(s: string)
  {
    |s| == 4 && AllDigits(s)
  }

  /** /^\s*(\d{4})\s*$/: the capture, when the pattern matches. Digits are not
      whitespace, so the capture is what remains after trimming. */
  function PaddedFourDigits(s: string): (r: Option<string>)
    ensures r.Some? ==> IsFourDigits(r.value)
  {
    var t := Trim(s);
    if IsFourDigits(t) then Some(t) else None
  }

  /** Every string of the shape whitespace, four digits, whitespace matches,
      and the capture is the four digits. */
  lemma PaddedFourDigitsMatches(lead: string, digits: string, trail: string)
    requires AllSpaces(lead) && AllSpaces(trail) && IsFourDigits(digits)
    ensures PaddedFourDigits(lead + digits + trail) == Some(digits)
  {
    TrimSurrounded(lead, digits, trail);
  }

  /** Only strings of that shape match. */
  lemma PaddedFourDigitsOnlyMatches(s: string)
    requires PaddedFourDigits(s).Some?
    ensures exists a: nat, b: nat {:trigger s[a..b]} ::
              (a <= b <= |s| && s[a..b] == PaddedFourDigits(s).value
               && AllSpaces(s[..a]) && AllSpaces(s[b..]))
  {
  }

  /** End of the run of word characters that starts at `i`. */
  function WordEnd(s: string, i: nat): (e: nat)
    requires i <= |s|
    ensures i <= e <= |s|
    ensures forall k :: i <= k < e ==> IsWordChar(s[k])
    ensures e == |s| || !IsWordChar(s[e])
    decreases |s| - i
  {
    if i < |s| && IsWordChar(s[i]) then WordEnd(s, i + 1) else i
  }

  /** /(\w+)\s(\d{4})/ matches at position `i`, with `\w+` covering `s[i..j]`. */
  predicate MatchesAt(s: string, i: nat, j: nat)
  {
    i < j && j + 5 <= |s| && (forall k :: i <= k < j ==> IsWordChar(s[k]))
    && IsSpace(s[j]) && AllDigits(s[j + 1..j + 5])
  }

  /** Greedy `\w+` can only end where the run of word characters ends: a
      whitespace character is never a word character, so the backtracking
      search has a single candidate. */
  lemma MatchEndsAtWordEnd(s: string, i: nat, j: nat)
    requires MatchesAt(s, i, j)
    ensures j == WordEnd(s, i)
  {
    var e := WordEnd(s, i);
    SpaceIsNotWordChar(s[j]);
  }

  /** A leftmost match: where the word starts and where it ends. */
  datatype WordYear = WordYear(start: nat, split: nat)

  /** The leftmost match of /(\w+)\s(\d{4})/ at or after position `i`. */
  function SearchMonthYear(s: string, i: nat): (r: Option<WordYear>)
    requires i <= |s|
    ensures r.Some? ==> i <= r.value.start && MatchesAt(s, r.value.start, r.value.split)
    ensures r.Some? ==> forall i', j :: i <= i' < r.value.start ==> !MatchesAt(s, i', j)
    ensures r.None? ==> forall i', j :: i <= i' ==> !MatchesAt(s, i', j)
    decreases |s| - i
  {
    if i == |s| then None
    else
      var e := WordEnd(s, i);
      if i < e && e + 5 <= |s| && IsSpace(s[e]) && AllDigits(s[e + 1..e + 5]) then
        Some(WordYear(i, e))
      else
        assert forall j :: !MatchesAt(s, i, j) by {
          forall j | MatchesAt(s, i, j) ensures false { MatchEndsAtWordEnd(s, i, j); }
        }
        SearchMonthYear(s, i + 1)
  }

  /** `s.match(/(\w+)\s(\d{4})/)`: the captured word and the captured year digits. */
  function MonthYearMatch(s: string): (r: Option<(string, string)>)
    ensures r.Some? ==> |r.value.0| >= 1 && IsFourDigits(r.value.1)
  {
    match SearchMonthYear(s, 0)
    case None => None
    case Some(m) => Some((s[m.start..m.split], s[m.split + 1..m.split + 5]))
  }

  /** `s.match(/[a-zA-Z]/) !== null` */
  predicate HasAsciiLetter(s: string)
  {
    exists i :: 0 <= i < |s| && IsAsciiLetter(s[i])
  }

  /** A character of the class /[\s,-/]/: whitespace or one of `,` `-` `.` `/`. */
  predicate IsSeparator(c: char)
  {
    IsSpace(c) || (',' <= c <= '/')
  }

  /** `s.split(/[\s,-/]/).length > 1`: some separator occurs. */
  predicate HasSeparator(s: string)
  {
    exists i :: 0 <= i < |s| && IsSeparator(s[i])
  }
}
