/**
 * The reading pattern `\d+\.?\d+` and Python's re.search for it.
 *
 * The pattern is a run of digits, an optional '.', and a second run of
 * digits; since both runs need at least one digit, a lone digit such as "7"
 * is not a reading, while "12", "5.3" and "123.4" are. re.search tries the
 * start positions from left to right and, at each, the greedy-with-backtracking
 * match. MatchAt writes that attempt out; IsNumeral is an independent,
 * declarative description of the strings the pattern accepts, and the lemmas
 * prove that Search returns the leftmost, and at that position the longest,
 * such substring, and none exactly when there is none.
 */
module Numerals {

  datatype Option<T> = None | Some(value: T)

  /** A half-open slice s[start..end] of the searched string. */
  datatype Span = Span(start: nat, end: nat)

  /** `\d`, restricted to ASCII digits. */
  predicate IsDigit(c: char) {
    '0' <= c <= '9'
  }

  /**
   * The language of `\d+\.?\d+`: at least two characters, digits and dots
   * only, at most one dot, first and last characters digits.
   */
  ghost predicate IsNumeral(t: string) {
    && |t| >= 2
    && IsDigit(t[0])
    && IsDigit(t[|t| - 1])
    && (forall k :: 0 <= k < |t| ==> IsDigit(t[k]) || t[k] == '.')
    && (forall a, b :: 0 <= a < b < |t| && t[a] == '.' ==> t[b] != '.')
  }

  ghost predicate NumeralAt(s: string, i: int, j: int) {
    0 <= i < j <= |s| && IsNumeral(s[i..j])
  }

  ghost predicate ContainsNumeral(s: string) {
    exists i, j :: NumeralAt(s, i, j)
  }

  /** No match of the pattern starts at a position in [lo, hi). */
  ghost predicate NoNumeralIn(s: string, lo: int, hi: int) {
    forall i, j :: lo <= i < hi ==> !NumeralAt(s, i, j)
  }

  /** s[i..j] matches the pattern and no longer match starts at i. */
  ghost predicate LongestAt(s: string, i: int, j: int) {
    NumeralAt(s, i, j) && forall j' :: j < j' ==> !NumeralAt(s, i, j')
  }

  /** s[i..j] matches the pattern, nothing matches further left, and nothing longer matches at i. */
  ghost predicate LeftmostLongest(s: string, i: int, j: int) {
    LongestAt(s, i, j) && NoNumeralIn(s, 0, i)
  }

  /** Length of the maximal run of digits starting at position i. */
  function DigitRun(s: string, i: nat): (n: nat)
    requires i <= |s|
    ensures i + n <= |s|
    ensures forall k :: i <= k < i + n ==> IsDigit(s[k])
    ensures i + n < |s| ==> !IsDigit(s[i + n])
    decreases |s| - i
  {
    if i == |s| || !IsDigit(s[i]) then 0 else 1 + DigitRun(s, i + 1)
  }

  /**
   * One attempt of the regex engine at position i, returning the end of the
   * match. The first `\d+` takes the whole digit run; if a '.' and a digit
   * follow, `\.?` takes the dot and the second `\d+` the next run. Otherwise
   * the engine gives the last digit of the run back to the second `\d+`,
   * which succeeds only when the run has at least two digits.
   */
  function MatchAt(s: string, i: nat): (r: Option<nat>)
    requires i <= |s|
    ensures r.Some? ==> i + 2 <= r.value <= |s|
  {
    var d := DigitRun(s, i);
    if d == 0 then None
    else if i + d + 1 < |s| && s[i + d] == '.' && IsDigit(s[i + d + 1]) then
      Some(i + d + 1 + DigitRun(s, i + d + 1))
    else if d >= 2 then Some(i + d)
    else None
  }

  /** re.search from position k onwards: the first position whose attempt succeeds. */
  function SearchFrom(s: string, k: nat): (r: Option<Span>)
    requires k <= |s|
    ensures r.Some? ==> k <= r.value.start < r.value.end <= |s|
    decreases |s| - k
  {
    if k == |s| then None
    else match MatchAt(s, k)
      case Some(e) => Some(Span(k, e))
      case None => SearchFrom(s, k + 1)
  }

  /** re.search for the reading pattern over the whole string. */
  function Search(s: string): (r: Option<Span>)
    ensures r.Some? ==> r.value.start < r.value.end <= |s|
  {
    SearchFrom(s, 0)
  }

  /** What MatchAt returns does match the pattern. */
  lemma MatchAtSound(s: string, i: nat)
    requires i <= |s|
    ensures MatchAt(s, i).Some? ==> NumeralAt(s, i, MatchAt(s, i).value)
  {
    var d := DigitRun(s, i);
    if d > 0 && i + d + 1 < |s| && s[i + d] == '.' && IsDigit(s[i + d + 1]) {
      var e := MatchAt(s, i).value;
      var t := s[i..e];
      assert |t| == e - i;
      forall k | 0 <= k < |t| ensures IsDigit(t[k]) || t[k] == '.' {
        assert t[k] == s[i + k];
      }
      forall a, b | 0 <= a < b < |t| && t[a] == '.' ensures t[b] != '.' {
        assert t[a] == s[i + a] && t[b] == s[i + b];
        assert i + a == i + d;
      }
    } else if d >= 2 {
      var t := s[i..i + d];
      forall k | 0 <= k < |t| ensures IsDigit(t[k]) {
        assert t[k] == s[i + k];
      }
    }
  }

  /**
   * Any match of the pattern at position i ends no later than MatchAt's,
   * and when there is one MatchAt does not fail.
   */
  lemma MatchAtMaximal(s: string, i: nat, j: int)
    requires i <= |s|
    requires NumeralAt(s, i, j)
    ensures MatchAt(s, i).Some? && j <= MatchAt(s, i).value
  {
    var t := s[i..j];
    var d := DigitRun(s, i);
    assert t[0] == s[i];
  }

  /** The attempt at one position fails exactly when no match starts there, and otherwise finds the longest one. */
  lemma MatchAtCorrect(s: string, i: nat)
    requires i <= |s|
    ensures MatchAt(s, i).None? ==> NoNumeralIn(s, i, i + 1)
    ensures MatchAt(s, i).Some? ==> LongestAt(s, i, MatchAt(s, i).value)
  {
    MatchAtSound(s, i);
    forall j | NumeralAt(s, i, j) ensures MatchAt(s, i).Some? && j <= MatchAt(s, i).value {
      MatchAtMaximal(s, i, j);
    }
  }

  /** The search from k finds the first position at or after k where the pattern matches, and there the longest match. */
  lemma {:induction false} SearchFromCorrect(s: string, k: nat)
    requires k <= |s|
    ensures SearchFrom(s, k).None? ==> NoNumeralIn(s, k, |s|)
    ensures SearchFrom(s, k).Some? ==>
      && k <= SearchFrom(s, k).value.start
      && NoNumeralIn(s, k, SearchFrom(s, k).value.start)
      && LongestAt(s, SearchFrom(s, k).value.start, SearchFrom(s, k).value.end)
    decreases |s| - k
  {
    if k < |s| {
      MatchAtCorrect(s, k);
      if MatchAt(s, k).None? {
        SearchFromCorrect(s, k + 1);
        var hi := if SearchFrom(s, k).Some? then SearchFrom(s, k).value.start else |s|;
        NoNumeralInJoin(s, k, k + 1, hi);
      }
    }
  }

  lemma NoNumeralInJoin(s: string, lo: int, mid: int, hi: int)
    requires NoNumeralIn(s, lo, mid) && NoNumeralIn(s, mid, hi)
    ensures NoNumeralIn(s, lo, hi)
  {
  }

  /** Search returns the leftmost-longest match of the pattern, or nothing exactly when there is no match. */
  lemma SearchCorrect(s: string)
    ensures Search(s).Some? ==> LeftmostLongest(s, Search(s).value.start, Search(s).value.end)
    ensures Search(s).None? <==> !ContainsNumeral(s)
  {
    SearchFromCorrect(s, 0);
    if Search(s).Some? {
      var sp := Search(s).value;
      assert NumeralAt(s, sp.start, sp.end);
    }
  }

  /** The leftmost-longest match is unique, so it pins the reading down. */
  lemma LeftmostLongestUnique(s: string, i: int, j: int, i': int, j': int)
    requires LeftmostLongest(s, i, j) && LeftmostLongest(s, i', j')
    ensures i == i' && j == j'
  {
  }

  /** What a match looks like: two digits at least, at most one dot, and no dot at either end. */
  lemma NumeralShape(t: string)
    requires IsNumeral(t)
    ensures t[0] != '.' && t[|t| - 1] != '.'
    ensures |t| >= 2 && IsDigit(t[0]) && IsDigit(t[|t| - 1])
    ensures multiset(t)['.'] <= 1
  {
    if '.' in t {
      var p :| 0 <= p < |t| && t[p] == '.';
      assert t == t[..p] + [t[p]] + t[p + 1..];
      assert '.' !in t[..p];
      assert '.' !in t[p + 1..];
    }
  }

  /** A lone digit is not a reading, nor is a fraction without its leading digits... */
  lemma SearchNoMatchExamples()
    ensures Search("7").None?
    ensures Search(".5").None?
  {
  }

  /** ...but two digits are, with or without a dot between them. */
  lemma SearchMatchExamples()
    ensures Search("12") == Some(Span(0, 2))
    ensures Search("5.3") == Some(Span(0, 3))
  {
  }

  /** The search runs past a lone digit and stops at the first match, which takes the dot and the digits after it. */
  lemma SearchLeftmostExamples()
    ensures Search("7 42") == Some(Span(2, 4))
    ensures Search("123.4X") == Some(Span(0, 5))
  {
  }
}
