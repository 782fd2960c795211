/**
 * Cleaning of the raw OCR result: the text fragments are stripped of
 * surrounding whitespace and the empty ones dropped, and the per-fragment
 * confidences lose their negative "no text here" sentinels.
 * Both are list comprehensions in the monitor loop and are modelled here as
 * filter-maps over sequences.
 */
module Cleaning {

  /** The characters Python's str.isspace() accepts, which str.strip() removes. */
  predicate IsSpace(c: char) {
    || ('\t' <= c <= '\r')
    || ('\U{1C}' <= c <= ' ')
    || c == '\U{85}' || c == '\U{A0}' || c == '\U{1680}'
    || ('\U{2000}' <= c <= '\U{200A}')
    || c == '\U{2028}' || c == '\U{2029}' || c == '\U{202F}' || c == '\U{205F}' || c == '\U{3000}'
  }

  /** s consists of whitespace only (which includes the empty string). */
  predicate AllSpace(s: string) {
    forall k :: 0 <= k < |s| ==> IsSpace(s[k])
  }

  /** Length of the maximal whitespace prefix of s. */
  function LeadingSpaces(s: string): (n: nat)
    ensures n <= |s|
    ensures forall k :: 0 <= k < n ==> IsSpace(s[k])
    ensures n < |s| ==> !IsSpace(s[n])
  {
    if s == [] || !IsSpace(s[0]) then 0 else 1 + LeadingSpaces(s[1..])
  }

  /** Length of the maximal whitespace suffix of s. */
  function TrailingSpaces(s: string): (n: nat)
    ensures n <= |s|
    ensures forall k :: |s| - n <= k < |s| ==> IsSpace(s[k])
    ensures n < |s| ==> !IsSpace(s[|s| - 1 - n])
  {
    if s == [] || !IsSpace(s[|s| - 1]) then 0 else 1 + TrailingSpaces(s[..|s| - 1])
  }

  /**
   * The slice s[lo..hi] that str.strip() keeps: everything outside it is
   * whitespace, and when it is non-empty it starts and ends with a
   * non-whitespace character, so no more and no less is cut off.
   */
  function StripBounds(s: string): (b: (nat, nat))
    ensures b.0 <= b.1 <= |s|
    ensures forall k :: 0 <= k < b.0 ==> IsSpace(s[k])
    ensures forall k :: b.1 <= k < |s| ==> IsSpace(s[k])
    ensures b.0 < b.1 ==> !IsSpace(s[b.0]) && !IsSpace(s[b.1 - 1])
  {
    var lo := LeadingSpaces(s);
    var n := TrailingSpaces(s[lo..]);
    assert forall k :: |s| - n <= k < |s| ==> s[k] == s[lo..][k - lo];
    (lo, |s| - n)
  }

  /** str.strip() without arguments. */
  function Strip(s: string): (r: string)
    ensures |r| <= |s|
    ensures r == "" <==> AllSpace(s)
    ensures r != "" ==> !IsSpace(r[0]) && !IsSpace(r[|r| - 1])
  {
    var (lo, hi) := StripBounds(s);
    s[lo..hi]
  }

  /** A string with no whitespace at either end is left as it is. */
  lemma StripUnchanged(s: string)
    requires s == "" || (!IsSpace(s[0]) && !IsSpace(s[|s| - 1]))
    ensures Strip(s) == s
  {
    var (lo, hi) := StripBounds(s);
    if s != "" {
      assert lo == 0 && hi == |s|;
    }
  }

  /** Stripping twice is stripping once. */
  lemma StripIdempotent(s: string)
    ensures Strip(Strip(s)) == Strip(s)
  {
    StripUnchanged(Strip(s));
  }

  /** What the comprehension keeps of one fragment: its stripped form, unless that is empty. */
  function Kept(text: string): (r: seq<string>)
    ensures |r| <= 1 && "" !in r
    ensures r == [] <==> AllSpace(text)
  {
    var t := Strip(text);
    if t == "" then [] else [t]
  }

  /** The non-blank fragments, stripped, in their original order. */
  function CleanFragments(texts: seq<string>): (r: seq<string>)
    ensures |r| <= |texts|
    ensures "" !in r
  {
    if texts == [] then [] else Kept(texts[0]) + CleanFragments(texts[1..])
  }

  /** The non-negative confidences, in their original order (the values are already integers). */
  function ValidConfidences(confs: seq<int>): (r: seq<nat>)
    ensures |r| <= |confs|
  {
    if confs == [] then []
    else (if confs[0] >= 0 then [confs[0] as nat] else []) + ValidConfidences(confs[1..])
  }

  /** Cleaning distributes over concatenation: it keeps the fragments in their original order. */
  lemma {:induction false} CleanFragmentsAppend(a: seq<string>, b: seq<string>)
    ensures CleanFragments(a + b) == CleanFragments(a) + CleanFragments(b)
  {
    if a == [] {
      assert a + b == b;
    } else {
      var head := Kept(a[0]);
      assert (a + b)[0] == a[0];
      assert (a + b)[1..] == a[1..] + b;
      CleanFragmentsAppend(a[1..], b);
      calc {
        CleanFragments(a + b);
        head + CleanFragments(a[1..] + b);
        head + (CleanFragments(a[1..]) + CleanFragments(b));
        (head + CleanFragments(a[1..])) + CleanFragments(b);
        CleanFragments(a) + CleanFragments(b);
      }
    }
  }

  /** Fragments that are non-empty and carry no surrounding whitespace pass through unchanged. */
  lemma {:induction false} CleanFragmentsOfClean(texts: seq<string>)
    requires forall k :: 0 <= k < |texts| ==> texts[k] != "" && !IsSpace(texts[k][0]) && !IsSpace(texts[k][|texts[k]| - 1])
    ensures CleanFragments(texts) == texts
  {
    if texts != [] {
      StripUnchanged(texts[0]);
      CleanFragmentsOfClean(texts[1..]);
      assert texts == [texts[0]] + texts[1..];
    }
  }

  /** A string is kept exactly when it is the non-empty stripped form of some input fragment. */
  lemma {:induction false} CleanFragmentsMembers(texts: seq<string>, t: string)
    ensures t in CleanFragments(texts) <==> t != "" && exists k :: 0 <= k < |texts| && Strip(texts[k]) == t
  {
    if texts != [] {
      CleanFragmentsMembers(texts[1..], t);
      if t != "" && Strip(texts[0]) != t && t !in CleanFragments(texts[1..]) {
        forall k | 0 <= k < |texts| ensures Strip(texts[k]) != t {
          if k > 0 { assert texts[k] == texts[1..][k - 1]; }
        }
      }
      if exists k :: 1 <= k < |texts| && Strip(texts[k]) == t {
        var k :| 1 <= k < |texts| && Strip(texts[k]) == t;
        assert texts[1..][k - 1] == texts[k];
      }
    }
  }

  /** No fragment survives exactly when every fragment is whitespace only. */
  lemma {:induction false} CleanFragmentsEmpty(texts: seq<string>)
    ensures CleanFragments(texts) == [] <==> forall k :: 0 <= k < |texts| ==> AllSpace(texts[k])
  {
    if texts != [] {
      var rest := texts[1..];
      CleanFragmentsEmpty(rest);
      assert CleanFragments(texts) == Kept(texts[0]) + CleanFragments(rest);
      if CleanFragments(texts) == [] {
        forall k | 0 <= k < |texts| ensures AllSpace(texts[k]) {
          if k > 0 { assert texts[k] == rest[k - 1]; }
        }
      } else if Kept(texts[0]) == [] {
        var k :| 0 <= k < |rest| && !AllSpace(rest[k]);
        assert texts[k + 1] == rest[k];
      }
    }
  }

  /** Cleaning the confidences keeps their relative order. */
  lemma {:induction false} ValidConfidencesAppend(a: seq<int>, b: seq<int>)
    ensures ValidConfidences(a + b) == ValidConfidences(a) + ValidConfidences(b)
  {
    if a == [] {
      assert a + b == b;
    } else {
      var head: seq<nat> := if a[0] >= 0 then [a[0] as nat] else [];
      assert (a + b)[0] == a[0];
      assert (a + b)[1..] == a[1..] + b;
      ValidConfidencesAppend(a[1..], b);
      calc {
        ValidConfidences(a + b);
        head + ValidConfidences(a[1..] + b);
        head + (ValidConfidences(a[1..]) + ValidConfidences(b));
        (head + ValidConfidences(a[1..])) + ValidConfidences(b);
        ValidConfidences(a) + ValidConfidences(b);
      }
    }
  }

  /**
   * Every non-negative confidence is kept as often as it occurs and every
   * negative one (the -1 sentinel among them) is dropped.
   */
  lemma {:induction false} ValidConfidencesCount(confs: seq<int>, x: int)
    ensures multiset(ValidConfidences(confs))[x] == if x >= 0 then multiset(confs)[x] else 0
  {
    if confs != [] {
      ValidConfidencesCount(confs[1..], x);
      assert confs == [confs[0]] + confs[1..];
    }
  }
}
