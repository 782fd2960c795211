/**
 * The average confidence of one OCR result and the logging threshold.
 *
 * The monitor averages the retained confidences with a floating-point mean.
 * Here the mean is kept exactly, as the pair (sum, count), with count == 0
 * standing for the literal 0 used when there is nothing to average. The
 * threshold test `avg >= 75` becomes `sum >= 75 * count`, and the `int(avg)`
 * written to the log becomes `sum / count`, which for non-negative values is
 * the truncation Python's int() performs.
 */
module Confidence {

  /** Readings below this average confidence are not logged. */
  const MinConfidenceThreshold: nat := 75

  datatype Mean = Mean(sum: nat, count: nat)

  function Sum(cs: seq<nat>): nat {
    if cs == [] then 0 else cs[0] + Sum(cs[1..])
  }

  function Min(cs: seq<nat>): nat
    requires cs != []
  {
    if |cs| == 1 then cs[0]
    else var m := Min(cs[1..]); if cs[0] <= m then cs[0] else m
  }

  function Max(cs: seq<nat>): nat
    requires cs != []
  {
    if |cs| == 1 then cs[0]
    else var m := Max(cs[1..]); if cs[0] >= m then cs[0] else m
  }

  /** The mean of the retained confidences; with none retained, count 0 stands for the average 0. */
  function MeanOf(cs: seq<nat>): (m: Mean)
  {
    Mean(Sum(cs), |cs|)
  }

  /** The value the Python code holds in avg_confidence, as a real number. */
  function Average(m: Mean): real {
    if m.count == 0 then 0.0 else (m.sum as real) / (m.count as real)
  }

  /** The average reaches the threshold, stated on the exact pair; an empty mean never does. */
  predicate MeetsThreshold(m: Mean) {
    m.count > 0 && m.sum >= MinConfidenceThreshold * m.count
  }

  /** The integer part of the mean, which int() gives: truncation towards zero, here the floor. */
  function Truncated(m: Mean): (v: nat)
    ensures m.count > 0 ==> v * m.count <= m.sum < (v + 1) * m.count
    ensures m.count == 0 ==> v == 0
  {
    if m.count == 0 then 0 else m.sum / m.count
  }

  /** The sum lies between |cs| times the minimum and |cs| times the maximum. */
  lemma {:induction false} SumBetweenMinAndMax(cs: seq<nat>)
    requires cs != []
    ensures Min(cs) * |cs| <= Sum(cs) <= Max(cs) * |cs|
  {
    if |cs| > 1 {
      var rest := cs[1..];
      SumBetweenMinAndMax(rest);
      MulMonotone(Min(cs), Min(rest), |rest|);
      MulMonotone(Max(rest), Max(cs), |rest|);
      MulSucc(Min(cs), |rest|);
      MulSucc(Max(cs), |rest|);
    }
  }

  /** The integer test on (sum, count) is exactly the test `avg >= 75` on the real average. */
  lemma MeetsThresholdIsAverageTest(m: Mean)
    ensures MeetsThreshold(m) <==> Average(m) >= MinConfidenceThreshold as real
  {
    if m.count > 0 {
      var c := m.count as real;
      var t := MinConfidenceThreshold as real;
      DivMul(m.sum as real, c);
      RealScale(t, Average(m), c);
      CastMul(MinConfidenceThreshold, m.count);
    }
  }

  /** The mean lies between the smallest and the largest retained confidence. */
  lemma AverageBetweenMinAndMax(cs: seq<nat>)
    requires cs != []
    ensures Min(cs) as real <= Average(MeanOf(cs)) <= Max(cs) as real
  {
    var m := MeanOf(cs);
    SumBetweenMinAndMax(cs);
    AverageBetween(m, Min(cs), Max(cs));
  }

  /** `int(avg)` never exceeds the average and is less than one below it. */
  lemma TruncatedIsFloor(m: Mean)
    ensures Truncated(m) as real <= Average(m) < Truncated(m) as real + 1.0
  {
    if m.count > 0 {
      var v := Truncated(m);
      AverageBetween(m, v, v + 1);
      var c := m.count as real;
      var a := Average(m);
      DivMul(m.sum as real, c);
      CastMul(v + 1, m.count);
      assert a * c < ((v + 1) as real) * c;
      RealScaleStrict(a, (v + 1) as real, c);
    }
  }

  /**
   * Because the threshold is a whole number, the average passes it exactly
   * when its truncation does; so every logged confidence is at least 75.
   */
  lemma ThresholdOnTruncated(m: Mean)
    ensures MeetsThreshold(m) <==> m.count > 0 && Truncated(m) >= MinConfidenceThreshold
  {
    if m.count > 0 {
      var v := Truncated(m);
      if v >= MinConfidenceThreshold {
        MulMonotone(MinConfidenceThreshold, v, m.count);
      } else {
        MulMonotone(v + 1, MinConfidenceThreshold, m.count);
      }
    }
  }

  // Arithmetic helpers for the proofs above.

  /** Bounds on the sum give the same bounds on the average. */
  lemma AverageBetween(m: Mean, lo: nat, hi: nat)
    requires m.count > 0
    requires lo * m.count <= m.sum <= hi * m.count
    ensures lo as real <= Average(m) <= hi as real
  {
    var c := m.count as real;
    var a := Average(m);
    DivMul(m.sum as real, c);
    assert a * c == m.sum as real;
    CastMul(lo, m.count);
    CastMul(hi, m.count);
    assert (lo as real) * c <= a * c;
    assert a * c <= (hi as real) * c;
    RealScale(lo as real, a, c);
    RealScale(a, hi as real, c);
  }

  lemma MulMonotone(a: int, b: int, c: nat)
    requires a <= b
    ensures a * c <= b * c
  {
  }

  lemma MulSucc(a: int, n: int)
    ensures a * (n + 1) == a + a * n
  {
  }

  lemma DivMul(x: real, c: real)
    requires c > 0.0
    ensures (x / c) * c == x
  {
  }

  lemma RealScale(a: real, b: real, c: real)
    requires c > 0.0
    ensures a <= b <==> a * c <= b * c
  {
  }

  lemma RealScaleStrict(a: real, b: real, c: real)
    requires c > 0.0
    ensures a < b <==> a * c < b * c
  {
  }

  lemma CastMul(a: int, b: int)
    ensures (a * b) as real == (a as real) * (b as real)
  {
  }
}
