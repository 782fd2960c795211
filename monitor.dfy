/**
 * The change-detection filter of the polling loop.
 *
 * Each iteration yields a frame: the capture timestamp and the OCR result.
 * The frame's reading is logged when it differs from the last logged reading
 * and its average confidence is at least the threshold; only then does the
 * last logged reading change. Otherwise the iteration is skipped, with a
 * low-confidence warning when the confidence is below the threshold.
 *
 * Decide, FinalLast and LoggedEntries say this on values; GaugeMonitor holds
 * the loop's state (the last logged reading, and the CSV rows as a ghost
 * sequence) and its methods are proved against those functions.
 */
module Monitor {
  import opened Cleaning
  import opened Numerals
  import opened Confidence
  import opened Extraction
  import opened DebugImage

  /** One iteration's input: the capture time and what the OCR engine returned. */
  datatype Frame = Frame(timestamp: string, texts: seq<string>, confs: seq<int>)

  /** A frame after extraction: its timestamp, reading and average confidence. */
  datatype Scan = Scan(timestamp: string, reading: string, confidence: Mean)

  /** One row of the log: Timestamp, Reading, Confidence, Source_Image. */
  datatype LogEntry = LogEntry(timestamp: string, reading: string, confidence: nat, image: string)

  /** The three outcomes of an iteration. */
  datatype Decision = Logged(entry: LogEntry) | TooLowConfidence | Unchanged

  /** Extraction applied to a frame. */
  function ScanOf(f: Frame): (s: Scan)
    ensures s.timestamp == f.timestamp && s.reading != ""
  {
    var o := Extract(f.texts, f.confs);
    Scan(f.timestamp, o.reading, o.confidence)
  }

  /** Extraction applied to every frame of a run, in order. */
  function ScanAll(frames: seq<Frame>): (r: seq<Scan>)
    ensures |r| == |frames|
    ensures forall k :: 0 <= k < |r| ==> r[k] == ScanOf(frames[k])
  {
    seq(|frames|, k requires 0 <= k < |frames| => ScanOf(frames[k]))
  }

  /**
   * The logging decision for a scan, given the last logged reading; the
   * row it logs carries int(avg) and the debug image name.
   */
  function Decide(last: string, s: Scan): (d: Decision)
    ensures d.Logged? <==> s.reading != last && MeetsThreshold(s.confidence)
    ensures d.Logged? ==> d.entry.reading == s.reading && d.entry.confidence >= MinConfidenceThreshold
  {
    ThresholdOnTruncated(s.confidence);
    if s.reading != last && MeetsThreshold(s.confidence) then
      Logged(LogEntry(s.timestamp, s.reading, Truncated(s.confidence), ImageName(s.timestamp)))
    else if !MeetsThreshold(s.confidence) then TooLowConfidence
    else Unchanged
  }

  /** The rows a decision appends to the log. */
  function Appended(d: Decision): seq<LogEntry> {
    if d.Logged? then [d.entry] else []
  }

  /** last_logged_reading after one iteration. */
  function NextLast(last: string, s: Scan): (r: string)
    ensures r != last <==> Decide(last, s).Logged?
    ensures r == if MeetsThreshold(s.confidence) then s.reading else last
  {
    var d := Decide(last, s);
    if d.Logged? then d.entry.reading else last
  }

  /** last_logged_reading after the given scans, starting from last. */
  function FinalLast(last: string, scans: seq<Scan>): string {
    if scans == [] then last
    else NextLast(FinalLast(last, scans[..|scans| - 1]), scans[|scans| - 1])
  }

  /** The rows the given scans append to the log, starting from last. */
  function LoggedEntries(last: string, scans: seq<Scan>): seq<LogEntry> {
    if scans == [] then []
    else
      var n := |scans| - 1;
      LoggedEntries(last, scans[..n]) + Appended(Decide(FinalLast(last, scans[..n]), scans[n]))
  }

  /** Every row differs in reading from the one before it, and the first from start. */
  ghost predicate NoRepeats(start: string, entries: seq<LogEntry>) {
    && (entries != [] ==> entries[0].reading != start)
    && forall k :: 0 < k < |entries| ==> entries[k].reading != entries[k - 1].reading
  }

  /** Every row passed the threshold and names the image of its own timestamp. */
  ghost predicate WellFormed(entries: seq<LogEntry>) {
    forall e :: e in entries ==> e.confidence >= MinConfidenceThreshold && e.image == ImageName(e.timestamp)
  }

  /**
   * The decision follows the source's test on the real-valued average: it
   * logs exactly when the reading changed and the average is at least 75,
   * warns exactly when the average is below 75, and otherwise the reading
   * is unchanged; the logged confidence is int(avg).
   */
  lemma DecideFollowsAverage(last: string, s: Scan)
    ensures Decide(last, s).Logged? <==> s.reading != last && Average(s.confidence) >= MinConfidenceThreshold as real
    ensures Decide(last, s).TooLowConfidence? <==> Average(s.confidence) < MinConfidenceThreshold as real
    ensures Decide(last, s).Unchanged? ==> s.reading == last
    ensures Decide(last, s).Logged? ==>
      var e := Decide(last, s).entry;
      && e.timestamp == s.timestamp
      && e.image == ImageName(s.timestamp)
      && e.confidence as real <= Average(s.confidence) < e.confidence as real + 1.0
  {
    MeetsThresholdIsAverageTest(s.confidence);
    TruncatedIsFloor(s.confidence);
  }

  /** The state only ever holds the reading of the last row logged (or the initial value if none). */
  lemma {:induction false} FinalLastIsLastLogged(last: string, scans: seq<Scan>)
    ensures LoggedEntries(last, scans) == [] ==> FinalLast(last, scans) == last
    ensures LoggedEntries(last, scans) != [] ==>
      FinalLast(last, scans) == LoggedEntries(last, scans)[|LoggedEntries(last, scans)| - 1].reading
  {
    if scans != [] {
      FinalLastIsLastLogged(last, scans[..|scans| - 1]);
    }
  }

  /** No two consecutive logged readings are equal, and the first differs from the initial state. */
  lemma {:induction false} LoggedEntriesNoRepeats(last: string, scans: seq<Scan>)
    ensures NoRepeats(last, LoggedEntries(last, scans))
  {
    if scans != [] {
      var prefix := scans[..|scans| - 1];
      LoggedEntriesNoRepeats(last, prefix);
      FinalLastIsLastLogged(last, prefix);
      var before := LoggedEntries(last, prefix);
      var d := Decide(FinalLast(last, prefix), scans[|scans| - 1]);
      if d.Logged? {
        var all := before + [d.entry];
        assert LoggedEntries(last, scans) == all;
        forall k | 0 < k < |all| ensures all[k].reading != all[k - 1].reading {
          if k < |before| {
            assert all[k] == before[k] && all[k - 1] == before[k - 1];
          } else {
            assert all[k - 1] == before[|before| - 1];
          }
        }
      } else {
        assert LoggedEntries(last, scans) == before;
      }
    }
  }

  /** Every logged row passed the confidence threshold and names its image; there is at most one per scan. */
  lemma {:induction false} LoggedEntriesWellFormed(last: string, scans: seq<Scan>)
    ensures WellFormed(LoggedEntries(last, scans))
    ensures |LoggedEntries(last, scans)| <= |scans|
  {
    if scans != [] {
      LoggedEntriesWellFormed(last, scans[..|scans| - 1]);
    }
  }

  /** The scan at position k produced the row e: same time and reading, and a confidence that passed. */
  ghost predicate LoggedFrom(e: LogEntry, scans: seq<Scan>, k: int) {
    && 0 <= k < |scans|
    && e.timestamp == scans[k].timestamp
    && e.reading == scans[k].reading
    && MeetsThreshold(scans[k].confidence)
  }

  /** The positions of the scans that were logged, in order. */
  function LoggedPositions(last: string, scans: seq<Scan>): seq<int> {
    if scans == [] then []
    else
      var n := |scans| - 1;
      LoggedPositions(last, scans[..n]) + (if Decide(FinalLast(last, scans[..n]), scans[n]).Logged? then [n] else [])
  }

  /**
   * Every row of the log comes from a scan of the run that passed the
   * threshold, and the rows keep the order of their scans.
   */
  lemma {:induction false} LoggedEntriesFromScans(last: string, scans: seq<Scan>)
    ensures |LoggedPositions(last, scans)| == |LoggedEntries(last, scans)|
    ensures forall m :: 0 <= m < |LoggedPositions(last, scans)| ==>
      LoggedFrom(LoggedEntries(last, scans)[m], scans, LoggedPositions(last, scans)[m])
    ensures forall m :: 0 < m < |LoggedPositions(last, scans)| ==>
      LoggedPositions(last, scans)[m - 1] < LoggedPositions(last, scans)[m]
  {
    if scans != [] {
      var n := |scans| - 1;
      var prefix := scans[..n];
      LoggedEntriesFromScans(last, prefix);
      var before, ks0 := LoggedEntries(last, prefix), LoggedPositions(last, prefix);
      var all, ks := LoggedEntries(last, scans), LoggedPositions(last, scans);
      var d := Decide(FinalLast(last, prefix), scans[n]);
      assert all == before + Appended(d);
      assert ks == ks0 + (if d.Logged? then [n] else []);
      forall m | 0 <= m < |ks| ensures LoggedFrom(all[m], scans, ks[m]) {
        if m < |ks0| {
          assert all[m] == before[m] && ks[m] == ks0[m];
          assert LoggedFrom(before[m], prefix, ks0[m]);
          assert prefix[ks0[m]] == scans[ks0[m]];
        } else {
          assert all[m] == d.entry && ks[m] == n;
        }
      }
      forall m | 0 < m < |ks| ensures ks[m - 1] < ks[m] {
        if m < |ks0| {
          assert ks[m - 1] == ks0[m - 1] && ks[m] == ks0[m];
        } else {
          assert ks[m - 1] == ks0[m - 1];
          assert LoggedFrom(before[m - 1], prefix, ks0[m - 1]);
        }
      }
    }
  }

  /** Later scans only append to the log: the rows of a prefix of the run are a prefix of the run's rows. */
  lemma {:induction false} LoggedEntriesPrefix(last: string, scans: seq<Scan>, n: nat)
    requires n <= |scans|
    ensures LoggedEntries(last, scans[..n]) <= LoggedEntries(last, scans)
    decreases |scans|
  {
    if n < |scans| {
      var prefix := scans[..|scans| - 1];
      assert prefix[..n] == scans[..n];
      LoggedEntriesPrefix(last, prefix, n);
    } else {
      assert scans[..n] == scans;
    }
  }

  /** One more scan appends what its decision logs, and moves the state as NextLast says. */
  lemma LoggedEntriesSnoc(last: string, scans: seq<Scan>, s: Scan)
    ensures LoggedEntries(last, scans + [s]) == LoggedEntries(last, scans) + Appended(Decide(FinalLast(last, scans), s))
    ensures FinalLast(last, scans + [s]) == NextLast(FinalLast(last, scans), s)
  {
    var all := scans + [s];
    assert all[..|scans|] == scans && all[|scans|] == s;
  }

  lemma ScanAllSnoc(frames: seq<Frame>, i: nat)
    requires i < |frames|
    ensures ScanAll(frames[..i + 1]) == ScanAll(frames[..i]) + [ScanOf(frames[i])]
  {
    assert frames[..i + 1][..i] == frames[..i];
  }

  lemma AppendAssoc<T>(a: seq<T>, b: seq<T>, c: seq<T>)
    ensures (a + b) + c == a + (b + c)
  {
  }

  /** One more frame of a run: the loop invariant of GaugeMonitor.Run carried over one Step. */
  lemma RunStep(last: string, log: seq<LogEntry>, frames: seq<Frame>, i: nat)
    requires i < |frames|
    ensures FinalLast(last, ScanAll(frames[..i + 1])) == NextLast(FinalLast(last, ScanAll(frames[..i])), ScanOf(frames[i]))
    ensures log + LoggedEntries(last, ScanAll(frames[..i + 1]))
      == (log + LoggedEntries(last, ScanAll(frames[..i]))) + Appended(Decide(FinalLast(last, ScanAll(frames[..i])), ScanOf(frames[i])))
  {
    var scans := ScanAll(frames[..i]);
    var next := ScanOf(frames[i]);
    ScanAllSnoc(frames, i);
    LoggedEntriesSnoc(last, scans, next);
    AppendAssoc(log, LoggedEntries(last, scans), Appended(Decide(FinalLast(last, scans), next)));
  }

  /** Scans below the confidence threshold neither log nor change the state. */
  lemma {:induction false} LowConfidenceScansLogNothing(last: string, scans: seq<Scan>)
    requires forall m :: 0 <= m < |scans| ==> !MeetsThreshold(scans[m].confidence)
    ensures LoggedEntries(last, scans) == []
    ensures FinalLast(last, scans) == last
  {
    if scans != [] {
      LowConfidenceScansLogNothing(last, scans[..|scans| - 1]);
    }
  }

  /**
   * The first scan that passes the threshold is always logged, as long as
   * its reading differs from the initial state (for a run starting from "",
   * any non-empty reading, which extraction guarantees).
   */
  lemma FirstQualifyingLogged(last: string, scans: seq<Scan>, k: nat)
    requires k < |scans|
    requires forall m :: 0 <= m < k ==> !MeetsThreshold(scans[m].confidence)
    requires MeetsThreshold(scans[k].confidence) && scans[k].reading != last
    ensures LoggedEntries(last, scans) != []
    ensures LoggedEntries(last, scans)[0].timestamp == scans[k].timestamp
    ensures LoggedEntries(last, scans)[0].reading == scans[k].reading
  {
    LowConfidenceScansLogNothing(last, scans[..k]);
    var e := Decide(last, scans[k]).entry;
    var upto := scans[..k + 1];
    assert LoggedEntries(last, upto) == [e] by {
      assert upto == scans[..k] + [scans[k]];
      LoggedEntriesSnoc(last, scans[..k], scans[k]);
    }
    LoggedEntriesPrefix(last, scans, k + 1);
    assert LoggedEntries(last, upto) <= LoggedEntries(last, scans);
  }

  /**
   * Over frames and from the initial state "": the first frame whose
   * confidence passes the threshold gives the first row, since every
   * reading extraction produces is non-empty.
   */
  lemma FirstQualifyingFrameLogged(frames: seq<Frame>, k: nat)
    requires k < |frames|
    requires forall m :: 0 <= m < k ==> !MeetsThreshold(ScanOf(frames[m]).confidence)
    requires MeetsThreshold(ScanOf(frames[k]).confidence)
    ensures LoggedEntries("", ScanAll(frames)) != []
    ensures LoggedEntries("", ScanAll(frames))[0].timestamp == frames[k].timestamp
    ensures LoggedEntries("", ScanAll(frames))[0].reading == ScanOf(frames[k]).reading
  {
    FirstQualifyingLogged("", ScanAll(frames), k);
  }

  /** A frame whose only fragment is a reading, with one valid confidence c, scans to that reading at confidence c. */
  lemma ScanOfWholeNumeral(timestamp: string, t: string, c: nat)
    requires IsNumeral(t)
    ensures ScanOf(Frame(timestamp, [t], [c])) == Scan(timestamp, t, Mean(c, 1))
  {
    var o := Extract([t], [c]);
    assert ScanOf(Frame(timestamp, [t], [c])) == Scan(timestamp, o.reading, o.confidence);
    ExtractWholeNumeral(t, [c]);
    assert o.confidence == Mean(c, 1) by {
      assert [c][1..] == [];
      assert ValidConfidences([c]) == [c];
      assert Sum([c]) == c;
    }
  }

  /**
   * A run of four frames: a reading a that passes the threshold is logged,
   * a again is not, whatever its confidence, a new reading b below the
   * threshold is not, and b again above it is; for example "10.0" at 80,
   * "10.0" at 90, "10.1" at 60 and "10.1" at 90 log "10.0" then "10.1".
   */
  lemma ExampleRun(last: string, a: string, b: string, t0: string, t1: string, t2: string, t3: string, c0: nat, c1: nat, c2: nat, c3: nat)
    requires IsNumeral(a) && IsNumeral(b) && a != b && last != a
    requires c0 >= MinConfidenceThreshold && c2 < MinConfidenceThreshold && c3 >= MinConfidenceThreshold
    ensures LoggedEntries(last, ScanAll([Frame(t0, [a], [c0]), Frame(t1, [a], [c1]), Frame(t2, [b], [c2]), Frame(t3, [b], [c3])]))
      == [LogEntry(t0, a, c0, ImageName(t0)), LogEntry(t3, b, c3, ImageName(t3))]
  {
    var frames := [Frame(t0, [a], [c0]), Frame(t1, [a], [c1]), Frame(t2, [b], [c2]), Frame(t3, [b], [c3])];
    var s0, s1, s2, s3 := Scan(t0, a, Mean(c0, 1)), Scan(t1, a, Mean(c1, 1)), Scan(t2, b, Mean(c2, 1)), Scan(t3, b, Mean(c3, 1));
    var scans := [s0, s1, s2, s3];
    forall k | 0 <= k < 4 ensures ScanAll(frames)[k] == scans[k] {
      if k == 0 { ScanOfWholeNumeral(t0, a, c0); }
      else if k == 1 { ScanOfWholeNumeral(t1, a, c1); }
      else if k == 2 { ScanOfWholeNumeral(t2, b, c2); }
      else { ScanOfWholeNumeral(t3, b, c3); }
    }
    assert ScanAll(frames) == scans;
    ExampleRunLog(last, s0, s1, s2, s3);
  }

  /** "10.0" at 80, "10.0" at 90, "10.1" at 60 and "10.1" at 90 log "10.0" then "10.1". */
  lemma ExampleRunConcrete(t0: string, t1: string, t2: string, t3: string)
    ensures LoggedEntries("", ScanAll([Frame(t0, ["10.0"], [80]), Frame(t1, ["10.0"], [90]), Frame(t2, ["10.1"], [60]), Frame(t3, ["10.1"], [90])]))
      == [LogEntry(t0, "10.0", 80, ImageName(t0)), LogEntry(t3, "10.1", 90, ImageName(t3))]
  {
    var a, b := "10.0", "10.1";
    forall x, y | 0 <= x < y < |a| && a[x] == '.' ensures a[y] != '.' {}
    forall x, y | 0 <= x < y < |b| && b[x] == '.' ensures b[y] != '.' {}
    assert IsNumeral(a) && IsNumeral(b);
    ExampleRun("", a, b, t0, t1, t2, t3, 80, 90, 60, 90);
  }

  lemma ExampleRunLog(last: string, s0: Scan, s1: Scan, s2: Scan, s3: Scan)
    requires s0.confidence.count == 1 && s0.confidence.sum >= MinConfidenceThreshold && s0.reading != last
    requires s1.confidence.count == 1 && s1.reading == s0.reading
    requires s2.confidence.count == 1 && s2.confidence.sum < MinConfidenceThreshold
    requires s3.confidence.count == 1 && s3.confidence.sum >= MinConfidenceThreshold && s3.reading == s2.reading != s0.reading
    ensures LoggedEntries(last, [s0, s1, s2, s3]) ==
      [ LogEntry(s0.timestamp, s0.reading, s0.confidence.sum, ImageName(s0.timestamp)),
        LogEntry(s3.timestamp, s3.reading, s3.confidence.sum, ImageName(s3.timestamp)) ]
  {
    LoggedEntriesSnoc(last, [], s0);
    assert [] + [s0] == [s0];
    LoggedEntriesSnoc(last, [s0], s1);
    assert [s0] + [s1] == [s0, s1];
    LoggedEntriesSnoc(last, [s0, s1], s2);
    assert [s0, s1] + [s2] == [s0, s1, s2];
    LoggedEntriesSnoc(last, [s0, s1, s2], s3);
    assert [s0, s1, s2] + [s3] == [s0, s1, s2, s3];
  }

  /**
   * The loop's state: the last logged reading and, as a ghost sequence, the
   * rows appended to the log file.
   */
  class GaugeMonitor {
    var lastLogged: string
    ghost var log: seq<LogEntry>

    ghost predicate Valid()
      reads this
    {
      && (log == [] ==> lastLogged == "")
      && (log != [] ==> lastLogged == log[|log| - 1].reading)
      && NoRepeats("", log)
      && WellFormed(log)
      && forall e :: e in log ==> e.reading != ""
    }

    /** last_logged_reading = "" and an empty log. */
    constructor ()
      ensures Valid()
      ensures lastLogged == "" && log == []
    {
      lastLogged := "";
      log := [];
    }

    /** One iteration of the polling loop on a frame. */
    method Step(f: Frame) returns (d: Decision)
      requires Valid()
      modifies this
      ensures Valid()
      ensures d == Decide(old(lastLogged), ScanOf(f))
      ensures lastLogged == NextLast(old(lastLogged), ScanOf(f))
      ensures log == old(log) + Appended(d)
    {
      var o := Extract(f.texts, f.confs);
      if o.reading != lastLogged && MeetsThreshold(o.confidence) {
        var image := ImageName(f.timestamp);
        ThresholdOnTruncated(o.confidence);
        var entry := LogEntry(f.timestamp, o.reading, Truncated(o.confidence), image);
        log := log + [entry];
        lastLogged := o.reading;
        d := Logged(entry);
      } else if !MeetsThreshold(o.confidence) {
        d := TooLowConfidence;
      } else {
        d := Unchanged;
      }
    }

    /** The polling loop over a finite sequence of frames. */
    method Run(frames: seq<Frame>)
      requires Valid()
      modifies this
      ensures Valid()
      ensures lastLogged == FinalLast(old(lastLogged), ScanAll(frames))
      ensures log == old(log) + LoggedEntries(old(lastLogged), ScanAll(frames))
    {
      ghost var last0 := lastLogged;
      ghost var log0 := log;
      var i := 0;
      while i < |frames|
        invariant 0 <= i <= |frames|
        invariant Valid()
        invariant lastLogged == FinalLast(last0, ScanAll(frames[..i]))
        invariant log == log0 + LoggedEntries(last0, ScanAll(frames[..i]))
      {
        RunStep(last0, log0, frames, i);
        var _ := Step(frames[i]);
        i := i + 1;
      }
      assert frames[..|frames|] == frames;
    }
  }

  /** monitor_and_log_gauge over a finite run: starts from "" and logs what LoggedEntries says. */
  method MonitorAndLog(frames: seq<Frame>) returns (m: GaugeMonitor)
    ensures fresh(m) && m.Valid()
    ensures m.log == LoggedEntries("", ScanAll(frames))
    ensures m.lastLogged == FinalLast("", ScanAll(frames))
  {
    m := new GaugeMonitor();
    m.Run(frames);
  }
}
