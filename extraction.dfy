/**
 * Turning one OCR result into a reading and its average confidence.
 *
 * The OCR engine is outside the model: its result enters as the list of
 * recognised text fragments and the list of their integer confidences.
 * With no non-blank fragment the reading is "N/A" with confidence 0;
 * otherwise the cleaned fragments are joined, the reading is the first
 * match of `\d+\.?\d+` in the joined text (or the joined text itself when
 * there is none), and the confidence is the mean of the non-negative
 * confidences (0 when there are none).
 */
module Extraction {
  import opened Cleaning
  import opened Numerals
  import opened Confidence

  /** The reading used when the OCR engine recognised no text. */
  const NoReading: string := "N/A"

  datatype Observation = Observation(reading: string, confidence: Mean)

  /** The fragments joined with no separator. */
  function Concat(fragments: seq<string>): (r: string)
    ensures "" !in fragments ==> |r| >= |fragments|
  {
    if fragments == [] then ""
    else fragments[0] + Concat(fragments[1..])
  }

  /** Joining distributes over concatenation: the fragments appear in the joined text in their order. */
  lemma {:induction false} ConcatAppend(a: seq<string>, b: seq<string>)
    ensures Concat(a + b) == Concat(a) + Concat(b)
  {
    if a == [] {
      assert a + b == b;
    } else {
      assert (a + b)[0] == a[0];
      assert (a + b)[1..] == a[1..] + b;
      ConcatAppend(a[1..], b);
    }
  }

  /** The reading found in the joined text: the regex match, or the text itself when nothing matches. */
  function ReadingOf(raw: string): (r: string)
    ensures ContainsNumeral(raw) ==> IsNumeral(r)
    ensures !ContainsNumeral(raw) ==> r == raw
  {
    SearchCorrect(raw);
    match Search(raw)
    case Some(sp) => raw[sp.start..sp.end]
    case None => raw
  }

  /** One pass of the extraction step of the monitor loop. */
  function Extract(texts: seq<string>, confs: seq<int>): (o: Observation)
    ensures o.reading != ""
  {
    var fragments := CleanFragments(texts);
    if fragments == [] then Observation(NoReading, Mean(0, 0))
    else
      var raw := Concat(fragments);
      Observation(ReadingOf(raw), MeanOf(ValidConfidences(confs)))
  }

  /** Without a non-blank fragment the reading is "N/A" and its confidence 0, which never passes the threshold. */
  lemma ExtractNoText(texts: seq<string>, confs: seq<int>)
    requires forall k :: 0 <= k < |texts| ==> AllSpace(texts[k])
    ensures Extract(texts, confs).reading == NoReading
    ensures Average(Extract(texts, confs).confidence) == 0.0
    ensures !MeetsThreshold(Extract(texts, confs).confidence)
  {
    CleanFragmentsEmpty(texts);
  }

  /**
   * When the joined fragments contain a match of the pattern, the reading is
   * the leftmost (and at that position longest) match.
   */
  lemma ExtractMatched(texts: seq<string>, confs: seq<int>, i: int, j: int)
    requires CleanFragments(texts) != []
    requires LeftmostLongest(Concat(CleanFragments(texts)), i, j)
    ensures Extract(texts, confs).reading == Concat(CleanFragments(texts))[i..j]
    ensures IsNumeral(Extract(texts, confs).reading)
  {
    var raw := Concat(CleanFragments(texts));
    SearchCorrect(raw);
    var sp := Search(raw).value;
    LeftmostLongestUnique(raw, i, j, sp.start, sp.end);
  }

  /** When nothing in the joined fragments matches, the reading is the joined text unchanged. */
  lemma ExtractFallback(texts: seq<string>, confs: seq<int>)
    requires CleanFragments(texts) != []
    requires !ContainsNumeral(Concat(CleanFragments(texts)))
    ensures Extract(texts, confs).reading == Concat(CleanFragments(texts))
  {
    SearchCorrect(Concat(CleanFragments(texts)));
  }

  /**
   * With some text recognised, the confidence is the exact mean of the
   * non-negative confidences: the sentinels take no part in it.
   */
  lemma ExtractConfidence(texts: seq<string>, confs: seq<int>)
    requires CleanFragments(texts) != []
    ensures Extract(texts, confs).confidence.count == |ValidConfidences(confs)|
    ensures Extract(texts, confs).confidence.sum == Sum(ValidConfidences(confs))
    ensures ValidConfidences(confs) != [] ==>
      Min(ValidConfidences(confs)) as real <= Average(Extract(texts, confs).confidence) <= Max(ValidConfidences(confs)) as real
  {
    if ValidConfidences(confs) != [] {
      AverageBetweenMinAndMax(ValidConfidences(confs));
    }
  }

  /** A single fragment that is itself a reading is read back whole. */
  lemma ExtractWholeNumeral(t: string, confs: seq<int>)
    requires IsNumeral(t)
    ensures Extract([t], confs).reading == t
    ensures Extract([t], confs).confidence == MeanOf(ValidConfidences(confs))
  {
    assert [t][0] == t;
    CleanFragmentsOfClean([t]);
    assert [t][1..] == [];
    assert Concat([t]) == t;
    assert t[0..|t|] == t;
    assert LeftmostLongest(t, 0, |t|);
    ExtractMatched([t], confs, 0, |t|);
  }

  /** The fragments ["12", "3.4", "X"] join to "123.4X", which reads "123.4". */
  lemma ExtractJoinedExample()
    ensures Extract(["12", "3.4", "X"], [91, 88, -1]).reading == "123.4"
  {
    JoinedExampleFragments();
    JoinedExampleReading();
  }

  lemma JoinedExampleFragments()
    ensures CleanFragments(["12", "3.4", "X"]) == ["12", "3.4", "X"]
  {
    var texts := ["12", "3.4", "X"];
    assert texts[0] == "12" && texts[1] == "3.4" && texts[2] == "X";
    CleanFragmentsOfClean(texts);
  }

  lemma JoinedExampleReading()
    ensures ReadingOf(Concat(["12", "3.4", "X"])) == "123.4"
  {
    var texts := ["12", "3.4", "X"];
    assert texts[1..] == ["3.4", "X"] && texts[1..][1..] == ["X"] && texts[1..][1..][1..] == [];
    assert Concat(texts) == "123.4X";
    SearchLeftmostExamples();
  }

  /** A lone digit does not match the pattern, so it is read back unchanged. */
  lemma ExtractLoneDigitExample()
    ensures Extract([" 7 "], [80]).reading == "7"
  {
    assert Strip(" 7 ") == "7";
    assert CleanFragments([" 7 "]) == ["7"];
    assert Concat(["7"]) == "7";
    SearchNoMatchExamples();
  }

  /** Blank fragments give "N/A", whatever the confidences say. */
  lemma ExtractBlankExample()
    ensures Extract(["", " "], [-1, 95]) == Observation(NoReading, Mean(0, 0))
  {
    assert Strip(" ") == "";
    assert CleanFragments(["", " "]) == [];
  }
}
