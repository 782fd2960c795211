# Industrial gauge OCR logger — verified model of the reading filter

The monitor polls a screen region showing a digital gauge, runs OCR on it
once a second, and appends a row `Timestamp, Reading, Confidence,
Source_Image` to a CSV log. It does so only when the reading has changed since
the last logged one and the OCR's average confidence is at least 75. This
project models in Dafny what happens between the OCR result and the log row,
and proves what that logic promises.

- `cleaning.dfy` (module `Cleaning`) strips whitespace from the recognised
  text fragments and drops the blank ones. It also drops the negative "no
  text" sentinels from the confidences. Whitespace follows Python's
  `str.strip()`.
- `numerals.dfy` (module `Numerals`) covers the reading pattern `\d+\.?\d+`.
  `IsNumeral` describes the language it accepts declaratively.
  `Search`/`SearchFrom`/`MatchAt` write out `re.search`'s leftmost
  attempt-by-attempt matching, including the backtracking that makes a lone
  digit fail. The lemmas prove that the search returns the leftmost, and
  there longest, match, and nothing exactly when there is none.
- `confidence.dfy` (module `Confidence`) keeps the average confidence
  exactly, as a (sum, count) pair. The threshold test and the logged
  `int(avg)` are integer operations on that pair. Lemmas tie both to the
  real-valued mean.
- `extraction.dfy` (module `Extraction`) turns one OCR result (fragments and
  confidences) into a reading and its confidence. The reading is "N/A" when
  nothing was recognised, otherwise the leftmost match in the joined
  fragments, or the joined text itself when nothing matches.
- `debug_image.dfy` (module `DebugImage`) builds the name of the debug image
  saved with each row: `debug/`, then the timestamp with `:` and ` `
  replaced by `_`, then `.png`.
- `monitor.dfy` (module `Monitor`) holds the change-detection filter.
  - `Decide`, `NextLast`, `FinalLast` and `LoggedEntries` are its
    specification on values, with lemmas about whole runs.
  - The class `GaugeMonitor` holds the loop's state: `lastLogged`, and the
    rows written so far as the ghost sequence `log`. Its `Step` and `Run`
    methods are proved against those functions, and they keep the class
    invariant `Valid`.
  - The invariant says `lastLogged` is the reading of the last row (or "" if
    there is none), no two consecutive rows repeat a reading, and every row
    passed the threshold and names its own image.

Two consequences of the code are worth stating up front:
- `\d+\.?\d+` needs at least two digits, so "7" is not a reading and falls
  back to the raw text "7" (lines 85-91).
- The average stays 0 whenever no fragment survives cleaning (lines 77-80),
  whatever the confidences are; `Extract` does the same.

## Model

| member | source | states |
|---|---|---|
| Cleaning.StripBounds | ocr_industrial_monitor.py:74 | The kept slice is in bounds, everything outside it is whitespace, and a non-empty slice starts and ends with non-whitespace. |
| Cleaning.Strip | ocr_industrial_monitor.py:74 | `strip()` gives "" exactly when the fragment is all whitespace, is never longer, and otherwise starts and ends with non-whitespace. |
| Cleaning.StripUnchanged | ocr_industrial_monitor.py:74 | A fragment with no whitespace at either end is returned unchanged by `strip()`. |
| Cleaning.StripIdempotent | ocr_industrial_monitor.py:74 | Stripping twice is stripping once. |
| Cleaning.Kept | ocr_industrial_monitor.py:74 | One fragment contributes at most one non-empty string, and nothing exactly when it is all whitespace. |
| Cleaning.CleanFragments | ocr_industrial_monitor.py:74 | The cleaned list is no longer than the input and contains no empty string. |
| Cleaning.CleanFragmentsAppend | ocr_industrial_monitor.py:74 | Cleaning distributes over concatenation, so fragments keep their original order. |
| Cleaning.CleanFragmentsOfClean | ocr_industrial_monitor.py:74 | Fragments that are already non-empty and trimmed pass through unchanged. |
| Cleaning.CleanFragmentsMembers | ocr_industrial_monitor.py:74 | A string is in the cleaned list iff it is non-empty and is the stripped form of some input fragment. |
| Cleaning.CleanFragmentsEmpty | ocr_industrial_monitor.py:74 | The cleaned list is empty iff every fragment is whitespace only. |
| Cleaning.ValidConfidences | ocr_industrial_monitor.py:75 | Every retained confidence is a natural number (never a -1 sentinel), and there are no more than were given. |
| Cleaning.ValidConfidencesAppend | ocr_industrial_monitor.py:75 | Filtering the confidences distributes over concatenation, so retained values keep their relative order. |
| Cleaning.ValidConfidencesCount | ocr_industrial_monitor.py:75 | Each non-negative value is kept as many times as it occurs, and each negative value is dropped. |
| Numerals.DigitRun | ocr_industrial_monitor.py:85 | The maximal run of digits starting at a position: all digits, and followed by a non-digit or the end. |
| Numerals.MatchAt | ocr_industrial_monitor.py:85 | A successful attempt at position i ends at least two characters later and within the string. |
| Numerals.MatchAtSound | ocr_industrial_monitor.py:85 | What one attempt returns matches the pattern. |
| Numerals.MatchAtMaximal | ocr_industrial_monitor.py:85 | If any match starts at i, the attempt at i succeeds and ends no earlier. |
| Numerals.MatchAtCorrect | ocr_industrial_monitor.py:85 | An attempt fails exactly when no match starts there, and otherwise returns the longest one. |
| Numerals.SearchFrom | ocr_industrial_monitor.py:85 | A match found from k lies within [k, \|s\|) and is non-empty. |
| Numerals.SearchFromCorrect | ocr_industrial_monitor.py:85 | The search from k returns the first position at or after k where a match starts, and the longest match there; otherwise nothing matches from k on. |
| Numerals.Search | ocr_industrial_monitor.py:85 | A match found is a non-empty slice of the string. |
| Numerals.SearchCorrect | ocr_industrial_monitor.py:85-88 | `re.search` returns the leftmost, and there longest, match, and returns nothing iff the string contains no match. |
| Numerals.LeftmostLongestUnique | ocr_industrial_monitor.py:85-88 | The leftmost-longest match is unique, so the reading is determined. |
| Numerals.NumeralShape | ocr_industrial_monitor.py:85-88 | A match has at least two characters, starts and ends with a digit (never a '.'), and has at most one '.'. |
| Numerals.SearchNoMatchExamples | ocr_industrial_monitor.py:85 | "7" and ".5" do not match. |
| Numerals.SearchMatchExamples | ocr_industrial_monitor.py:85 | "12" and "5.3" match whole. |
| Numerals.SearchLeftmostExamples | ocr_industrial_monitor.py:85 | The search skips the lone "7" in "7 42" and finds "42"; in "123.4X" it takes "123.4". |
| Confidence.MeanOf | ocr_industrial_monitor.py:89 | The exact mean of the retained confidences, count 0 standing for the literal 0. `AverageBetweenMinAndMax` proves its average lies between their minimum and maximum, and `ExtractConfidence` that it has their sum and count. |
| Confidence.MeetsThreshold | ocr_industrial_monitor.py:95 | The threshold test on the exact pair. `MeetsThresholdIsAverageTest` proves it holds iff the real average is ≥ 75, and false for the empty mean. |
| Confidence.Truncated | ocr_industrial_monitor.py:100 | `int(avg)` is the floor of sum/count: v·count ≤ sum < (v+1)·count, and 0 for the empty mean. |
| Confidence.SumBetweenMinAndMax | ocr_industrial_monitor.py:89 | The sum lies between count·min and count·max of the retained confidences. |
| Confidence.AverageBetweenMinAndMax | ocr_industrial_monitor.py:89 | The average lies between the smallest and the largest retained confidence. |
| Confidence.MeetsThresholdIsAverageTest | ocr_industrial_monitor.py:95 | The integer test sum ≥ 75·count with count > 0 holds iff the real average is ≥ 75. |
| Confidence.TruncatedIsFloor | ocr_industrial_monitor.py:100 | `int(avg)` never exceeds the average and is less than one below it. |
| Confidence.ThresholdOnTruncated | ocr_industrial_monitor.py:95-100 | The average passes the threshold iff its integer part does, so a logged confidence is at least 75. |
| Extraction.Concat | ocr_industrial_monitor.py:82 | Joining non-empty fragments gives a string at least as long as their number. |
| Extraction.ConcatAppend | ocr_industrial_monitor.py:82 | Joining distributes over concatenation, so the fragments appear in the joined text in their order. |
| Extraction.ReadingOf | ocr_industrial_monitor.py:85-91 | With a match in the text, the reading matches the pattern; with none, it is the text itself. |
| Extraction.Extract | ocr_industrial_monitor.py:74-92 | The reading of an OCR result is never empty. |
| Extraction.ExtractNoText | ocr_industrial_monitor.py:77-80 | With no non-blank fragment, the reading is "N/A", the average is 0, and the threshold is not met. |
| Extraction.ExtractMatched | ocr_industrial_monitor.py:82-88 | If the joined fragments have a leftmost-longest match at [i, j), the reading is exactly that substring, and it matches the pattern. |
| Extraction.ExtractFallback | ocr_industrial_monitor.py:90-91 | With no match in the joined fragments, the reading is the joined text. |
| Extraction.ExtractConfidence | ocr_industrial_monitor.py:89-92 | With text recognised, the confidence is the exact mean of the non-negative confidences and lies between their minimum and maximum. |
| Extraction.ExtractWholeNumeral | ocr_industrial_monitor.py:80-89 | A single fragment that is itself a reading is read back whole, at the mean of the valid confidences. |
| Extraction.ExtractJoinedExample | ocr_industrial_monitor.py:82-88 | ["12", "3.4", "X"] reads "123.4". |
| Extraction.JoinedExampleFragments | ocr_industrial_monitor.py:74 | ["12", "3.4", "X"] passes cleaning unchanged. |
| Extraction.JoinedExampleReading | ocr_industrial_monitor.py:82-88 | The joined text "123.4X" reads "123.4". |
| Extraction.ExtractLoneDigitExample | ocr_industrial_monitor.py:90-91 | " 7 " reads "7" through the fallback, since a lone digit does not match. |
| Extraction.ExtractBlankExample | ocr_industrial_monitor.py:74-80 | Blank fragments give "N/A" with average 0, even next to a confidence of 95. |
| DebugImage.ReplaceChar | ocr_industrial_monitor.py:97 | Replacement keeps the length and changes exactly the occurrences of the replaced character. |
| DebugImage.SafeTimestamp | ocr_industrial_monitor.py:97 | Colons, then spaces, replaced by '_'. `ImageNameShape` proves the result is as long as the timestamp, has no ':' or ' ', and keeps every other character. |
| DebugImage.ImageName | ocr_industrial_monitor.py:97 | "debug/" + safe timestamp + ".png". `ImageNameShape` proves the prefix, the suffix and the stem; `ImageNameInjective` proves distinct timestamps give distinct names. |
| DebugImage.ImageNameShape | ocr_industrial_monitor.py:97 | The name is "debug/" + stem + ".png". The stem is as long as the timestamp, has no ':' or ' ', and keeps every other character in place. |
| DebugImage.ImageNameInjective | ocr_industrial_monitor.py:54-97 | Different timestamps in the `%Y-%m-%d %H:%M:%S` format give different image names. |
| Monitor.ScanOf | ocr_industrial_monitor.py:54-92 | The scan of a frame keeps its timestamp and has a non-empty reading. |
| Monitor.Decide | ocr_industrial_monitor.py:95-106 | A row is logged iff the reading differs from the last logged one and the threshold is met; the row carries the reading and a confidence ≥ 75. |
| Monitor.NextLast | ocr_industrial_monitor.py:101 | The last logged reading changes iff a row is logged, and then becomes the scan's reading. |
| Monitor.FinalLast | ocr_industrial_monitor.py:101 | `last_logged_reading` after a run. `FinalLastIsLastLogged` proves it is the reading of the last row logged, or the start value if none. |
| Monitor.LoggedEntries | ocr_industrial_monitor.py:100 | The rows a run appends. `LoggedEntriesNoRepeats`, `LoggedEntriesWellFormed`, `LoggedEntriesFromScans` and `LoggedEntriesPrefix` prove no consecutive repeats, confidence ≥ 75 with the right image, provenance from passing scans in order, and append-only growth. |
| Monitor.DecideFollowsAverage | ocr_industrial_monitor.py:95-106 | On the real average: log iff changed and avg ≥ 75, warn iff avg < 75, otherwise unchanged. The row has the capture time, `int(avg)` and the image name. |
| Monitor.FinalLastIsLastLogged | ocr_industrial_monitor.py:101 | After any run the state is the reading of the last row logged, or the initial value if none. |
| Monitor.LoggedEntriesNoRepeats | ocr_industrial_monitor.py:95-101 | No two consecutive logged readings are equal, and the first differs from the initial state. |
| Monitor.LoggedEntriesWellFormed | ocr_industrial_monitor.py:95-100 | Every row has confidence ≥ 75 and names the image of its own timestamp; there is at most one row per frame. |
| Monitor.LoggedEntriesFromScans | ocr_industrial_monitor.py:95-101 | Every row comes from a scan of the run that passed the threshold, with its timestamp and reading, and rows appear in scan order. |
| Monitor.LoggedEntriesPrefix | ocr_industrial_monitor.py:100 | The log is append-only: the rows of a prefix of a run are a prefix of the run's rows. |
| Monitor.LoggedEntriesSnoc | ocr_industrial_monitor.py:53-101 | One more scan appends exactly what its decision logs and advances the state by one step. |
| Monitor.RunStep | ocr_industrial_monitor.py:53-101 | One more frame extends the run's log and state by exactly one step. |
| Monitor.LowConfidenceScansLogNothing | ocr_industrial_monitor.py:102-103 | Scans below the threshold log nothing and leave the state unchanged. |
| Monitor.FirstQualifyingLogged | ocr_industrial_monitor.py:95-101 | The first scan that passes the threshold is logged as the first row if its reading differs from the initial state; from "" that is any reading extraction produces. |
| Monitor.FirstQualifyingFrameLogged | ocr_industrial_monitor.py:48-101 | From the initial state "", the first frame whose confidence passes the threshold gives the first row, with its timestamp and reading. |
| Monitor.ScanOfWholeNumeral | ocr_industrial_monitor.py:74-92 | A frame whose one fragment is a reading, with one valid confidence c, scans to that reading at confidence c. |
| Monitor.ExampleRun | ocr_industrial_monitor.py:95-106 | Frames a@≥75, a@any, b@<75, b@≥75 log exactly a, then b, e.g. "10.0"@80, "10.0"@90, "10.1"@60, "10.1"@90. |
| Monitor.ExampleRunConcrete | ocr_industrial_monitor.py:95-106 | "10.0"@80, "10.0"@90, "10.1"@60, "10.1"@90 from "" log exactly "10.0"@80, then "10.1"@90. |
| Monitor.ExampleRunLog | ocr_industrial_monitor.py:95-106 | The same run stated on scans: exactly the first and the last scan are logged. |
| Monitor.GaugeMonitor.constructor | ocr_industrial_monitor.py:48 | The monitor starts with last logged reading "" and an empty log. |
| Monitor.GaugeMonitor.Step | ocr_industrial_monitor.py:54-106 | One iteration decides as `Decide`, moves the state as `NextLast`, appends exactly the logged row, and keeps `Valid`. |
| Monitor.GaugeMonitor.Run | ocr_industrial_monitor.py:53-108 | The loop over frames, each extracted in order by `ScanOf`, ends in state `FinalLast` and has appended exactly `LoggedEntries` of those scans, and keeps `Valid`. |
| Monitor.MonitorAndLog | ocr_industrial_monitor.py:43-53 | From a fresh monitor, the log of a run is `LoggedEntries("", …)` and the invariant holds. |

## Left out

- Screen capture, grayscale conversion and Otsu thresholding are image I/O and numerics in foreign libraries. They are not modelled.
- The Tesseract call is a black-box OCR engine. Its result is an input: a sequence of text fragments and a sequence of integer confidences.
- The conversion `int(c)` of the raw confidence values is not modelled. Confidences enter as integers.
- Writing the CSV row (`log_reading`, pandas) and the debug image (`cv2.imwrite`) is file I/O. A logged row is appended to the ghost sequence `GaugeMonitor.log`, and the image is represented only by its name.
- `initialize_log_file` and the `debug` directory creation are start-up file I/O and are not modelled.
- The wall clock is not modelled; each frame carries its timestamp string. `DebugImage.IsTimestamp` describes the format for `ImageNameInjective`.
- The sleep between polls is not modelled.
- The interrupt and blanket exception handlers are not modelled.
- The `print` output is not modelled; `Decision.TooLowConfidence` stands for the low-confidence warning.
- The infinite `while True` loop is modelled as `GaugeMonitor.Run` over a finite sequence of frames. Any finite prefix of a run is covered.
- The floating-point `np.mean` is modelled as the exact rational (sum, count). For confidences of at most 100 and realistic fragment counts, the float comparison with 75 and `int()` agree with the exact ones.
- Numerals.IsDigit: `\d` is restricted to the ASCII digits. Python's `\d` also matches other Unicode decimal digits, which the OCR whitelist `0123456789.` keeps out.
- Cleaning.IsSpace: whitespace is the set Python's `str.isspace()` accepts. The model takes this set as given and does not derive it from the Unicode database.
