/** The silence-interval computations of the local detection service
    (`WhisperSilenceDetector` in autocut-cep/python/whisper_service.py):

    - the amplitude scan of `detect_silence`, which turns a per-sample
      "is silent" flag into the maximal silent runs that last at least
      `min_duration` seconds;
    - the speech-gap extraction of `enhanced_silence_detection`, which turns
      the gaps between consecutive transcription segments into silence
      segments;
    - `_merge_overlapping_segments`, which sorts segments by start and
      coalesces the ones that overlap or touch.

    Audio decoding, the conversion to decibels and the transcription itself
    are done by foreign libraries: the model takes the decibel levels and the
    transcription segments as inputs. Times are exact reals. */
module SilenceDetection {
  import opened Optional
  import opened Sorting

  /** `librosa.load(audio_path, sr=16000)` always resamples to 16 kHz. */
  const SampleRate: real := 16000.0
  /** Confidence given to every segment found by the amplitude scan. */
  const AmplitudeConfidence: real := 0.9
  /** Confidence given to every gap between two transcription segments. */
  const GapConfidence: real := 0.8

  /** The optional `'type'` key of a segment dictionary: only speech gaps carry one. */
  datatype Tag = NoType | SpeechGap

  /** A silence segment dictionary: `start`, `end`, `duration`, `confidence`, `type`. */
  datatype Segment = Segment(start: real, end: real, duration: real, confidence: real, tag: Tag)

  /** A transcription segment; only its `start` and `end` are read. */
  datatype Transcribed = Transcribed(start: real, end: real)

  /** A run of samples, the half-open index range [lo, hi). */
  datatype Run = Run(lo: nat, hi: nat)

  /** The time in seconds of sample `i`, as `i / sr`. */
  function Time(i: nat): real
  {
    i as real / SampleRate
  }

  /** `audio_db < silence_threshold`, element by element. */
  function IsSilent(levelsDb: seq<real>, silenceThreshold: real): (r: seq<bool>)
    ensures |r| == |levelsDb|
    ensures forall i :: 0 <= i < |r| ==> (r[i] <==> levelsDb[i] < silenceThreshold)
  {
    seq(|levelsDb|, i requires 0 <= i < |levelsDb| => levelsDb[i] < silenceThreshold)
  }

  // ---------------------------------------------------------------------
  // Silent runs

  /** `r` is a maximal run of silent samples among the first `n` samples of
      `s`: every sample in it is silent, and the samples just before and just
      after it (if there are any among the first `n`) are not. */
  predicate MaximalIn(s: seq<bool>, n: nat, r: Run)
    requires n <= |s|
  {
    && r.lo < r.hi <= n
    && (forall j :: r.lo <= j < r.hi ==> s[j])
    && (r.lo == 0 || !s[r.lo - 1])
    && (r.hi == n || !s[r.hi])
  }

  /** `r` is a maximal run of silent samples of `s`. */
  predicate MaximalRun(s: seq<bool>, r: Run)
  {
    MaximalIn(s, |s|, r)
  }

  /** The silent runs among the first `n` samples of `s`, in order, built one
      sample at a time: a silent sample either extends the run that ends just
      before it or opens a new one. */
  function RunsUpTo(s: seq<bool>, n: nat): (r: seq<Run>)
    requires n <= |s|
    ensures n > 0 && s[n - 1] ==> r != [] && r[|r| - 1].hi == n
    decreases n
  {
    if n == 0 then []
    else
      var prev := RunsUpTo(s, n - 1);
      if !s[n - 1] then prev
      else if n > 1 && s[n - 2] then prev[|prev| - 1 := Run(prev[|prev| - 1].lo, n)]
      else prev + [Run(n - 1, n)]
  }

  /** The silent runs of `s`. */
  function Runs(s: seq<bool>): seq<Run>
  {
    RunsUpTo(s, |s|)
  }

  /** Each run ends strictly before the next one starts. */
  predicate Separated(runs: seq<Run>)
  {
    forall k, k' :: 0 <= k < k' < |runs| ==> runs[k].hi < runs[k'].lo
  }

  /** `runs` are maximal runs among the first `n` samples, in increasing
      order, and every silent sample among them lies in one of the runs. */
  predicate RunsOf(s: seq<bool>, n: nat, runs: seq<Run>)
    requires n <= |s|
  {
    && (forall k :: 0 <= k < |runs| ==> MaximalIn(s, n, runs[k]))
    && Separated(runs)
    && (forall j :: 0 <= j < n && s[j] ==> exists k :: 0 <= k < |runs| && runs[k].lo <= j < runs[k].hi)
  }

  /** A non-silent sample leaves the runs as they are. */
  lemma StepQuiet(s: seq<bool>, n: nat, prev: seq<Run>)
    requires 0 < n <= |s| && !s[n - 1] && RunsOf(s, n - 1, prev)
    ensures RunsOf(s, n, prev)
  {
    forall k | 0 <= k < |prev| ensures MaximalIn(s, n, prev[k]) {
      assert MaximalIn(s, n - 1, prev[k]);
    }
  }

  /** A run that was maximal among the first `n - 1` samples and does not
      reach sample `n - 2` stays maximal among the first `n`. */
  lemma EarlierRunStays(s: seq<bool>, n: nat, run: Run)
    requires 1 < n <= |s| && MaximalIn(s, n - 1, run) && run.hi < n - 1
    ensures MaximalIn(s, n, run)
  {
  }

  /** The last run, ending at sample `n - 1`, extended by the silent sample `n - 1`. */
  lemma LastRunGrows(s: seq<bool>, n: nat, run: Run)
    requires 1 < n <= |s| && s[n - 1] && MaximalIn(s, n - 1, run) && run.hi == n - 1
    ensures MaximalIn(s, n, Run(run.lo, n))
  {
  }

  /** A silent sample right after a silent one extends the last run. */
  lemma StepExtend(s: seq<bool>, n: nat, prev: seq<Run>)
    requires 1 < n <= |s| && s[n - 1] && s[n - 2] && RunsOf(s, n - 1, prev)
    requires prev != [] && prev[|prev| - 1].hi == n - 1
    ensures RunsOf(s, n, prev[|prev| - 1 := Run(prev[|prev| - 1].lo, n)])
  {
    ExtendMaximal(s, n, prev);
    ExtendCovers(s, n, prev);
    var m := |prev| - 1;
    var r := prev[m := Run(prev[m].lo, n)];
    assert forall k :: 0 <= k < m ==> r[k] == prev[k];
  }

  lemma ExtendMaximal(s: seq<bool>, n: nat, prev: seq<Run>)
    requires 1 < n <= |s| && s[n - 1] && prev != [] && prev[|prev| - 1].hi == n - 1
    requires forall k :: 0 <= k < |prev| ==> MaximalIn(s, n - 1, prev[k])
    requires Separated(prev)
    ensures var r := prev[|prev| - 1 := Run(prev[|prev| - 1].lo, n)];
      forall k :: 0 <= k < |r| ==> MaximalIn(s, n, r[k])
  {
    var m := |prev| - 1;
    var r := prev[m := Run(prev[m].lo, n)];
    forall k | 0 <= k < |r| ensures MaximalIn(s, n, r[k]) {
      if k < m {
        assert prev[k].hi < prev[m].lo;
        EarlierRunStays(s, n, prev[k]);
      } else {
        LastRunGrows(s, n, prev[m]);
      }
    }
  }

  lemma ExtendCovers(s: seq<bool>, n: nat, prev: seq<Run>)
    requires 1 < n <= |s| && prev != [] && prev[|prev| - 1].hi == n - 1
    requires forall k :: 0 <= k < |prev| ==> prev[k].lo < prev[k].hi
    requires forall j :: 0 <= j < n - 1 && s[j] ==> exists k :: 0 <= k < |prev| && prev[k].lo <= j < prev[k].hi
    ensures var r := prev[|prev| - 1 := Run(prev[|prev| - 1].lo, n)];
      forall j :: 0 <= j < n && s[j] ==> exists k :: 0 <= k < |r| && r[k].lo <= j < r[k].hi
  {
    var m := |prev| - 1;
    var r := prev[m := Run(prev[m].lo, n)];
    forall j | 0 <= j < n && s[j] ensures exists k :: 0 <= k < |r| && r[k].lo <= j < r[k].hi {
      if j < n - 1 {
        var k :| 0 <= k < |prev| && prev[k].lo <= j < prev[k].hi;
        assert r[k].lo <= j < r[k].hi;
      } else {
        assert r[m].lo <= j < r[m].hi;
      }
    }
  }

  /** A run that was maximal before a newly opened run ends before it and stays maximal. */
  lemma OpenKeepsRun(s: seq<bool>, n: nat, run: Run)
    requires 0 < n <= |s| && (n == 1 || !s[n - 2])
    requires MaximalIn(s, n - 1, run)
    ensures run.hi < n - 1 && MaximalIn(s, n, run)
  {
    assert s[run.hi - 1];
  }

  /** A silent sample after a non-silent one, or at the start, opens a run. */
  lemma StepOpen(s: seq<bool>, n: nat, prev: seq<Run>)
    requires 0 < n <= |s| && s[n - 1] && (n == 1 || !s[n - 2]) && RunsOf(s, n - 1, prev)
    ensures RunsOf(s, n, prev + [Run(n - 1, n)])
  {
    var r := prev + [Run(n - 1, n)];
    forall k | 0 <= k < |prev| ensures prev[k].hi < n - 1 && MaximalIn(s, n, prev[k]) {
      OpenKeepsRun(s, n, prev[k]);
    }
    forall k | 0 <= k < |r| ensures MaximalIn(s, n, r[k]) {
      if k < |prev| {
        assert r[k] == prev[k];
      }
    }
    forall j | 0 <= j < n && s[j] ensures exists k :: 0 <= k < |r| && r[k].lo <= j < r[k].hi {
      if j < n - 1 {
        var k :| 0 <= k < |prev| && prev[k].lo <= j < prev[k].hi;
        assert r[k] == prev[k];
      } else {
        assert r[|prev|].lo <= j < r[|prev|].hi;
      }
    }
  }

  /** `RunsUpTo(s, n)` lists exactly the maximal silent runs among the first
      `n` samples, in increasing order. */
  lemma {:induction false} RunsUpToAreMaximal(s: seq<bool>, n: nat)
    requires n <= |s|
    ensures RunsOf(s, n, RunsUpTo(s, n))
    decreases n
  {
    if n > 0 {
      RunsUpToAreMaximal(s, n - 1);
      var prev := RunsUpTo(s, n - 1);
      if !s[n - 1] {
        StepQuiet(s, n, prev);
      } else if n > 1 && s[n - 2] {
        StepExtend(s, n, prev);
      } else {
        StepOpen(s, n, prev);
      }
    }
  }

  /** `Runs(s)` lists exactly the maximal silent runs of `s`: each of them is
      maximal, each ends before the next starts, and every silent sample lies
      in one of them. */
  lemma RunsAreMaximal(s: seq<bool>)
    ensures forall k :: 0 <= k < |Runs(s)| ==> MaximalRun(s, Runs(s)[k])
    ensures Separated(Runs(s))
    ensures forall j :: 0 <= j < |s| && s[j] ==>
              exists k :: 0 <= k < |Runs(s)| && Runs(s)[k].lo <= j < Runs(s)[k].hi
  {
    RunsUpToAreMaximal(s, |s|);
  }

  /** Two maximal runs that share a sample are the same run. */
  lemma MaximalRunsShareNoSample(s: seq<bool>, r1: Run, r2: Run, j: nat)
    requires MaximalRun(s, r1) && MaximalRun(s, r2)
    requires r1.lo <= j < r1.hi && r2.lo <= j < r2.hi
    ensures r1 == r2
  {
  }

  /** Each element of `Runs(s)` is a maximal run. */
  lemma RunIsMaximal(s: seq<bool>, k: nat)
    requires k < |Runs(s)|
    ensures MaximalRun(s, Runs(s)[k])
  {
    RunsUpToAreMaximal(s, |s|);
  }

  /** Each maximal run is an element of `Runs(s)`. */
  lemma RunIsListed(s: seq<bool>, r: Run) returns (k: nat)
    requires MaximalRun(s, r)
    ensures k < |Runs(s)| && Runs(s)[k] == r
  {
    RunsUpToAreMaximal(s, |s|);
    var runs := Runs(s);
    assert s[r.lo];
    k :| 0 <= k < |runs| && runs[k].lo <= r.lo < runs[k].hi;
    MaximalRunsShareNoSample(s, r, runs[k], r.lo);
  }

  // ---------------------------------------------------------------------
  // The amplitude scan (`detect_silence`)

  /** The segment dictionary emitted for a run. */
  function AmplitudeSegment(r: Run): Segment
  {
    Segment(Time(r.lo), Time(r.hi), Time(r.hi) - Time(r.lo), AmplitudeConfidence, NoType)
  }

  /** The run lasts at least `minDuration` seconds. */
  predicate LongEnough(r: Run, minDuration: real)
  {
    Time(r.hi) - Time(r.lo) >= minDuration
  }

  /** The segments of those among the first `m` runs that are long enough, in order. */
  function SegmentsOf(runs: seq<Run>, m: nat, minDuration: real): seq<Segment>
    requires m <= |runs|
    decreases m
  {
    if m == 0 then []
    else
      SegmentsOf(runs, m - 1, minDuration)
        + (if LongEnough(runs[m - 1], minDuration) then [AmplitudeSegment(runs[m - 1])] else [])
  }

  /** What `detect_silence` returns for the silence flags `isSilent`. */
  function AmplitudeSegments(isSilent: seq<bool>, minDuration: real): seq<Segment>
  {
    SegmentsOf(Runs(isSilent), |Runs(isSilent)|, minDuration)
  }

  /** `SegmentsOf` only looks at the first `m` runs. */
  lemma {:induction false} SegmentsOfPrefix(a: seq<Run>, b: seq<Run>, m: nat, minDuration: real)
    requires m <= |a| && m <= |b|
    requires forall j :: 0 <= j < m ==> a[j] == b[j]
    ensures SegmentsOf(a, m, minDuration) == SegmentsOf(b, m, minDuration)
    decreases m
  {
    if m > 0 {
      SegmentsOfPrefix(a, b, m - 1, minDuration);
    }
  }

  /** The state of the scan after the first `i` samples, whose runs are
      `runs`: `silenceStart` is the start time of the silent run that reaches
      sample `i - 1`, if there is one, and `segments` holds the long-enough
      runs that have ended. */
  ghost predicate ScanState(s: seq<bool>, i: nat, runs: seq<Run>, silenceStart: Option<real>,
                            segments: seq<Segment>, minDuration: real)
  {
    && i <= |s|
    && runs == RunsUpTo(s, i)
    && if i > 0 && s[i - 1] then
         && silenceStart == Some(Time(runs[|runs| - 1].lo))
         && segments == SegmentsOf(runs, |runs| - 1, minDuration)
       else
         silenceStart == None && segments == SegmentsOf(runs, |runs|, minDuration)
  }

  /** The amplitude scan of `detect_silence`: one pass over the samples,
      remembering where the current silent run started. */
  method DetectSilence(levelsDb: seq<real>, silenceThreshold: real, minDuration: real)
    returns (segments: seq<Segment>)
    ensures segments == AmplitudeSegments(IsSilent(levelsDb, silenceThreshold), minDuration)
  {
    var isSilent := IsSilent(levelsDb, silenceThreshold);
    segments := [];
    var silenceStart: Option<real> := None;
    ghost var runs: seq<Run> := [];
    var i := 0;
    while i < |isSilent|
      invariant ScanState(isSilent, i, runs, silenceStart, segments, minDuration)
    {
      var time := Time(i);
      var silent := isSilent[i];
      if silent && silenceStart == None {
        ScanOpens(isSilent, i, runs, segments, minDuration);
        silenceStart := Some(time);
      } else if !silent && silenceStart != None {
        var duration := time - silenceStart.value;
        if duration >= minDuration {
          ScanClosesLong(isSilent, i, runs, silenceStart.value, segments, minDuration);
          segments := segments + [Segment(silenceStart.value, time, duration, AmplitudeConfidence, NoType)];
        } else {
          ScanClosesShort(isSilent, i, runs, silenceStart.value, segments, minDuration);
        }
        silenceStart := None;
      } else {
        ScanContinues(isSilent, i, runs, silenceStart, segments, minDuration);
      }
      runs := RunsUpTo(isSilent, i + 1);
      i := i + 1;
    }
    ScanFinish(isSilent, runs, silenceStart, segments, minDuration);
    if silenceStart != None {
      var end := Time(|levelsDb|);
      var duration := end - silenceStart.value;
      if duration >= minDuration {
        segments := segments + [Segment(silenceStart.value, end, duration, AmplitudeConfidence, NoType)];
      }
    }
  }

  /** A silent sample after a non-silent one (or at the start) opens a run. */
  lemma ScanOpens(s: seq<bool>, i: nat, runs: seq<Run>, segments: seq<Segment>, minDuration: real)
    requires i < |s| && s[i] && ScanState(s, i, runs, None, segments, minDuration)
    ensures ScanState(s, i + 1, RunsUpTo(s, i + 1), Some(Time(i)), segments, minDuration)
  {
    var next := RunsUpTo(s, i + 1);
    assert next == runs + [Run(i, i + 1)];
    SegmentsOfPrefix(runs, next, |runs|, minDuration);
  }

  /** A non-silent sample closes the open run; a run lasting at least
      `minDuration` adds its segment. */
  lemma ScanClosesLong(s: seq<bool>, i: nat, runs: seq<Run>, start: real, segments: seq<Segment>, minDuration: real)
    requires i < |s| && !s[i] && ScanState(s, i, runs, Some(start), segments, minDuration)
    requires Time(i) - start >= minDuration
    ensures ScanState(s, i + 1, RunsUpTo(s, i + 1), None,
      segments + [Segment(start, Time(i), Time(i) - start, AmplitudeConfidence, NoType)], minDuration)
  {
    assert i > 0 && s[i - 1];
    CloseLastRun(runs, i, start, segments, minDuration);
    assert RunsUpTo(s, i + 1) == runs;
  }

  /** A non-silent sample closes the open run; a shorter run adds nothing. */
  lemma ScanClosesShort(s: seq<bool>, i: nat, runs: seq<Run>, start: real, segments: seq<Segment>, minDuration: real)
    requires i < |s| && !s[i] && ScanState(s, i, runs, Some(start), segments, minDuration)
    requires Time(i) - start < minDuration
    ensures ScanState(s, i + 1, RunsUpTo(s, i + 1), None, segments, minDuration)
  {
    assert i > 0 && s[i - 1];
    CloseLastRun(runs, i, start, segments, minDuration);
    assert RunsUpTo(s, i + 1) == runs;
  }

  /** Closing the last run at sample `i` appends its segment when it is long enough. */
  lemma CloseLastRun(runs: seq<Run>, i: nat, start: real, segments: seq<Segment>, minDuration: real)
    requires runs != [] && runs[|runs| - 1].hi == i && start == Time(runs[|runs| - 1].lo)
    requires segments == SegmentsOf(runs, |runs| - 1, minDuration)
    ensures SegmentsOf(runs, |runs|, minDuration)
         == if Time(i) - start >= minDuration
            then segments + [Segment(start, Time(i), Time(i) - start, AmplitudeConfidence, NoType)]
            else segments
  {
    var last := runs[|runs| - 1];
    assert AmplitudeSegment(last) == Segment(start, Time(i), Time(i) - start, AmplitudeConfidence, NoType);
  }

  /** Any other sample leaves the start of the open run and the segments alone. */
  lemma ScanContinues(s: seq<bool>, i: nat, runs: seq<Run>, silenceStart: Option<real>,
                      segments: seq<Segment>, minDuration: real)
    requires i < |s| && (s[i] <==> silenceStart != None)
    requires ScanState(s, i, runs, silenceStart, segments, minDuration)
    ensures ScanState(s, i + 1, RunsUpTo(s, i + 1), silenceStart, segments, minDuration)
  {
    var next := RunsUpTo(s, i + 1);
    if s[i] {
      var m := |runs| - 1;
      assert next == runs[m := Run(runs[m].lo, i + 1)];
      SegmentsOfPrefix(runs, next, m, minDuration);
    } else {
      assert next == runs;
    }
  }

  /** What the scan still emits once every sample has been seen. */
  lemma ScanFinish(s: seq<bool>, runs: seq<Run>, silenceStart: Option<real>, segments: seq<Segment>, minDuration: real)
    requires ScanState(s, |s|, runs, silenceStart, segments, minDuration)
    ensures silenceStart == None ==> segments == AmplitudeSegments(s, minDuration)
    ensures silenceStart != None && Time(|s|) - silenceStart.value >= minDuration ==>
      segments + [Segment(silenceStart.value, Time(|s|), Time(|s|) - silenceStart.value, AmplitudeConfidence, NoType)]
        == AmplitudeSegments(s, minDuration)
    ensures silenceStart != None && Time(|s|) - silenceStart.value < minDuration ==>
      segments == AmplitudeSegments(s, minDuration)
  {
    if silenceStart != None {
      assert |s| > 0 && s[|s| - 1];
      CloseLastRun(runs, |s|, silenceStart.value, segments, minDuration);
    }
  }

  /** A segment is emitted for exactly the long-enough runs among the first `m`. */
  lemma {:induction false} SegmentsOfMembers(runs: seq<Run>, m: nat, minDuration: real)
    requires m <= |runs|
    ensures forall x :: x in SegmentsOf(runs, m, minDuration) <==>
              exists k :: 0 <= k < m && LongEnough(runs[k], minDuration) && x == AmplitudeSegment(runs[k])
    decreases m
  {
    if m > 0 {
      SegmentsOfMembers(runs, m - 1, minDuration);
    }
  }

  /** Every emitted segment ends strictly before the next one starts. */
  lemma {:induction false} SegmentsOfOrdered(runs: seq<Run>, m: nat, minDuration: real)
    requires m <= |runs|
    requires forall k :: 0 <= k < |runs| ==> runs[k].lo < runs[k].hi
    requires Separated(runs)
    ensures forall a, b :: 0 <= a < b < |SegmentsOf(runs, m, minDuration)| ==>
              SegmentsOf(runs, m, minDuration)[a].end < SegmentsOf(runs, m, minDuration)[b].start
    decreases m
  {
    if m > 0 {
      var prev := SegmentsOf(runs, m - 1, minDuration);
      SegmentsOfOrdered(runs, m - 1, minDuration);
      SegmentsOfMembers(runs, m - 1, minDuration);
      var out := SegmentsOf(runs, m, minDuration);
      forall a, b | 0 <= a < b < |out| ensures out[a].end < out[b].start {
        if b >= |prev| {
          assert out[a] in prev;
          var k :| 0 <= k < m - 1 && LongEnough(runs[k], minDuration) && out[a] == AmplitudeSegment(runs[k]);
          assert runs[k].hi < runs[m - 1].lo;
        }
      }
    }
  }

  /** `detect_silence` emits exactly the maximal silent runs lasting at least
      `minDuration`: the segment of a maximal run is emitted when the run is
      long enough and only then (a shorter run leaves no segment), and every
      emitted segment is the segment of such a run. */
  lemma AmplitudeSegmentsExact(isSilent: seq<bool>, minDuration: real)
    ensures forall r :: MaximalRun(isSilent, r) ==>
              (AmplitudeSegment(r) in AmplitudeSegments(isSilent, minDuration) <==> LongEnough(r, minDuration))
    ensures forall x :: x in AmplitudeSegments(isSilent, minDuration) ==>
              exists r :: MaximalRun(isSilent, r) && LongEnough(r, minDuration) && x == AmplitudeSegment(r)
  {
    var runs := Runs(isSilent);
    var out := AmplitudeSegments(isSilent, minDuration);
    SegmentsOfMembers(runs, |runs|, minDuration);
    forall r | MaximalRun(isSilent, r)
      ensures AmplitudeSegment(r) in out <==> LongEnough(r, minDuration)
    {
      var k := RunIsListed(isSilent, r);
      if AmplitudeSegment(r) in out {
        var k' :| 0 <= k' < |runs| && LongEnough(runs[k'], minDuration) && AmplitudeSegment(r) == AmplitudeSegment(runs[k']);
        assert Time(r.lo) == Time(runs[k'].lo) && Time(r.hi) == Time(runs[k'].hi);
      }
    }
    forall x | x in out
      ensures exists r :: MaximalRun(isSilent, r) && LongEnough(r, minDuration) && x == AmplitudeSegment(r)
    {
      var k :| 0 <= k < |runs| && LongEnough(runs[k], minDuration) && x == AmplitudeSegment(runs[k]);
      RunIsMaximal(isSilent, k);
    }
  }

  /** Each segment of `detect_silence` lasts `end - start >= minDuration`
      seconds, records that length as its `duration`, has confidence 0.9 and
      ends strictly before the next one starts, so the segments are in
      strictly increasing order of start and pairwise disjoint. */
  lemma AmplitudeSegmentsOrdered(isSilent: seq<bool>, minDuration: real)
    ensures forall x :: x in AmplitudeSegments(isSilent, minDuration) ==>
              && x.start < x.end
              && x.end - x.start >= minDuration
              && x.duration == x.end - x.start
              && x.confidence == AmplitudeConfidence
    ensures forall a, b :: 0 <= a < b < |AmplitudeSegments(isSilent, minDuration)| ==>
              AmplitudeSegments(isSilent, minDuration)[a].end < AmplitudeSegments(isSilent, minDuration)[b].start
  {
    var runs := Runs(isSilent);
    RunsAreMaximal(isSilent);
    SegmentsOfMembers(runs, |runs|, minDuration);
    SegmentsOfOrdered(runs, |runs|, minDuration);
  }

  // ---------------------------------------------------------------------
  // Speech gaps (the loop of `enhanced_silence_detection`)

  /** The silence segment for the gap between two consecutive transcription segments. */
  function GapBetween(current: Transcribed, next: Transcribed): Segment
  {
    Segment(current.end, next.start, next.start - current.end, GapConfidence, SpeechGap)
  }

  /** The gap between pair `k` and `k + 1` lasts at least `minDuration`. */
  predicate GapQualifies(ts: seq<Transcribed>, k: nat, minDuration: real)
    requires k + 1 < |ts|
  {
    ts[k + 1].start - ts[k].end >= minDuration
  }

  /** The qualifying gaps between the pairs `(k, k + 1)` with `k >= i`, in order. */
  function GapsFrom(ts: seq<Transcribed>, i: nat, minDuration: real): seq<Segment>
    requires i <= |ts|
    decreases |ts| - i
  {
    if i + 1 >= |ts| then []
    else
      (if GapQualifies(ts, i, minDuration) then [GapBetween(ts[i], ts[i + 1])] else [])
        + GapsFrom(ts, i + 1, minDuration)
  }

  /** The speech gaps of a transcription. */
  function Gaps(ts: seq<Transcribed>, minDuration: real): seq<Segment>
  {
    GapsFrom(ts, 0, minDuration)
  }

  /** The gap loop of `enhanced_silence_detection`. */
  method SpeechGaps(ts: seq<Transcribed>, minDuration: real) returns (gaps: seq<Segment>)
    ensures gaps == Gaps(ts, minDuration)
  {
    gaps := [];
    var i := 0;
    while i + 1 < |ts|
      invariant i <= |ts|
      invariant gaps + GapsFrom(ts, i, minDuration) == Gaps(ts, minDuration)
    {
      var currentEnd := ts[i].end;
      var nextStart := ts[i + 1].start;
      var gapDuration := nextStart - currentEnd;
      if gapDuration >= minDuration {
        gaps := gaps + [Segment(currentEnd, nextStart, gapDuration, GapConfidence, SpeechGap)];
      }
      i := i + 1;
    }
  }

  /** The pairs `(k, k + 1)` with `k >= i` whose gap qualifies, by their index `k`, in order. */
  function QualifyingPairs(ts: seq<Transcribed>, i: nat, minDuration: real): seq<nat>
    requires i <= |ts|
    decreases |ts| - i
  {
    if i + 1 >= |ts| then []
    else (if GapQualifies(ts, i, minDuration) then [i] else []) + QualifyingPairs(ts, i + 1, minDuration)
  }

  /** `QualifyingPairs` lists each qualifying pair from `i` on exactly once,
      in increasing order. */
  lemma {:induction false} QualifyingPairsExact(ts: seq<Transcribed>, i: nat, minDuration: real)
    requires i <= |ts|
    ensures forall k :: k in QualifyingPairs(ts, i, minDuration) <==>
              i <= k && k + 1 < |ts| && GapQualifies(ts, k, minDuration)
    ensures forall a, b :: 0 <= a < b < |QualifyingPairs(ts, i, minDuration)| ==>
              QualifyingPairs(ts, i, minDuration)[a] < QualifyingPairs(ts, i, minDuration)[b]
    decreases |ts| - i
  {
    if i + 1 < |ts| {
      QualifyingPairsExact(ts, i + 1, minDuration);
      var head: seq<nat> := if GapQualifies(ts, i, minDuration) then [i] else [];
      var rest := QualifyingPairs(ts, i + 1, minDuration);
      var q := head + rest;
      assert QualifyingPairs(ts, i, minDuration) == q;
      forall a, b | 0 <= a < b < |q| ensures q[a] < q[b] {
        if a < |head| {
          assert q[a] == i && q[b] == rest[b - |head|];
          assert rest[b - |head|] in rest;
        } else {
          assert q[a] == rest[a - |head|] && q[b] == rest[b - |head|];
        }
      }
    }
  }

  /** Gap `j` is the gap of the `j`-th qualifying pair from `i` on: there is
      exactly one gap per qualifying pair, in pair order. */
  lemma {:induction false} GapsFromPositions(ts: seq<Transcribed>, i: nat, minDuration: real)
    requires i <= |ts|
    ensures |GapsFrom(ts, i, minDuration)| == |QualifyingPairs(ts, i, minDuration)|
    ensures forall j :: 0 <= j < |GapsFrom(ts, i, minDuration)| ==>
              QualifyingPairs(ts, i, minDuration)[j] + 1 < |ts|
              && GapsFrom(ts, i, minDuration)[j]
                 == GapBetween(ts[QualifyingPairs(ts, i, minDuration)[j]], ts[QualifyingPairs(ts, i, minDuration)[j] + 1])
    decreases |ts| - i
  {
    if i + 1 < |ts| {
      GapsFromPositions(ts, i + 1, minDuration);
      var g := GapsFrom(ts, i + 1, minDuration);
      var p := QualifyingPairs(ts, i + 1, minDuration);
      if GapQualifies(ts, i, minDuration) {
        assert GapsFrom(ts, i, minDuration) == [GapBetween(ts[i], ts[i + 1])] + g;
        assert QualifyingPairs(ts, i, minDuration) == [i] + p;
      } else {
        assert GapsFrom(ts, i, minDuration) == g;
        assert QualifyingPairs(ts, i, minDuration) == p;
      }
    }
  }

  /** A segment is a gap from `i` on exactly when some pair `(k, k + 1)` with
      `k >= i` has a qualifying gap that yields it. */
  lemma {:induction false} GapsFromMembers(ts: seq<Transcribed>, i: nat, minDuration: real)
    requires i <= |ts|
    ensures forall x :: x in GapsFrom(ts, i, minDuration) <==>
              exists k :: i <= k && k + 1 < |ts| && GapQualifies(ts, k, minDuration) && x == GapBetween(ts[k], ts[k + 1])
    ensures |GapsFrom(ts, i, minDuration)| <= if i + 1 < |ts| then |ts| - 1 - i else 0
    decreases |ts| - i
  {
    if i + 1 < |ts| {
      GapsFromMembers(ts, i + 1, minDuration);
    }
  }

  /** `enhanced_silence_detection` reports a gap for exactly the consecutive
      transcription segments whose gap lasts at least `minDuration`: gap `j`
      belongs to the `j`-th qualifying pair, so there is one gap per
      qualifying pair, in pair order (`QualifyingPairsExact` says which pairs
      those are). Each gap runs from the end of the first segment to the
      start of the next, records that length as its `duration`, has
      confidence 0.8 and is tagged a speech gap. */
  lemma GapsExact(ts: seq<Transcribed>, minDuration: real)
    ensures forall x :: x in Gaps(ts, minDuration) <==>
              exists k :: 0 <= k && k + 1 < |ts| && GapQualifies(ts, k, minDuration) && x == GapBetween(ts[k], ts[k + 1])
    ensures forall x :: x in Gaps(ts, minDuration) ==>
              && x.end - x.start >= minDuration
              && x.duration == x.end - x.start
              && x.confidence == GapConfidence
              && x.tag == SpeechGap
    ensures |ts| > 0 ==> |Gaps(ts, minDuration)| <= |ts| - 1
    ensures |ts| <= 1 ==> Gaps(ts, minDuration) == []
    ensures |Gaps(ts, minDuration)| == |QualifyingPairs(ts, 0, minDuration)|
    ensures forall j :: 0 <= j < |Gaps(ts, minDuration)| ==>
              QualifyingPairs(ts, 0, minDuration)[j] + 1 < |ts|
              && Gaps(ts, minDuration)[j]
                 == GapBetween(ts[QualifyingPairs(ts, 0, minDuration)[j]], ts[QualifyingPairs(ts, 0, minDuration)[j] + 1])
  {
    GapsFromMembers(ts, 0, minDuration);
    GapsFromPositions(ts, 0, minDuration);
  }

  // ---------------------------------------------------------------------
  // Merging (`_merge_overlapping_segments`)

  /** Python's `max(a, b)`. */
  function Max(a: real, b: real): (m: real)
    ensures m >= a && m >= b && (m == a || m == b)
  {
    if b > a then b else a
  }

  /** The sort key `lambda x: x['start']`. */
  function StartOf(x: Segment): real
  {
    x.start
  }

  /** The closed time interval of `x` contains `t`. */
  predicate Covers(x: Segment, t: real)
  {
    x.start <= t <= x.end
  }

  /** The dictionary that replaces `last` when `current` overlaps or touches
      it; it has no `'type'` key. */
  function Combine(last: Segment, current: Segment): (r: Segment)
    ensures r.start == last.start
    ensures r.end >= last.end && r.end >= current.end && (r.end == last.end || r.end == current.end)
    ensures r.duration == r.end - r.start
    ensures r.confidence >= last.confidence && r.confidence >= current.confidence
    ensures r.confidence == last.confidence || r.confidence == current.confidence
    ensures r.tag == NoType
  {
    var end := Max(last.end, current.end);
    Segment(last.start, end, end - last.start, Max(last.confidence, current.confidence), NoType)
  }

  /** One iteration of the merge loop. */
  function MergeStep(merged: seq<Segment>, current: Segment): (r: seq<Segment>)
    requires merged != []
    ensures 0 < |r| <= |merged| + 1
  {
    var last := merged[|merged| - 1];
    if current.start <= last.end then merged[|merged| - 1 := Combine(last, current)]
    else merged + [current]
  }

  /** The merge loop run over the first `n` segments of `s`. */
  function CoalesceUpTo(s: seq<Segment>, n: nat): (r: seq<Segment>)
    requires n <= |s|
    ensures n > 0 ==> 0 < |r| <= n
    ensures n == 0 ==> r == []
    decreases n
  {
    if n == 0 then []
    else if n == 1 then [s[0]]
    else MergeStep(CoalesceUpTo(s, n - 1), s[n - 1])
  }

  /** What `_merge_overlapping_segments` returns. */
  function MergedSegments(segments: seq<Segment>): seq<Segment>
  {
    var sorted := SortBy(segments, StartOf);
    CoalesceUpTo(sorted, |sorted|)
  }

  /** `_merge_overlapping_segments`: sort by start, then fold each segment
      into the last merged one when it starts no later than that one ends. */
  method MergeOverlappingSegments(segments: seq<Segment>) returns (merged: seq<Segment>)
    ensures merged == MergedSegments(segments)
  {
    if |segments| == 0 {
      return [];
    }
    var sorted := SortBy(segments, StartOf);
    merged := [sorted[0]];
    var i := 1;
    while i < |sorted|
      invariant 1 <= i <= |sorted|
      invariant merged == CoalesceUpTo(sorted, i)
    {
      var current := sorted[i];
      var last := merged[|merged| - 1];
      CoalesceNext(sorted, i);
      if current.start <= last.end {
        var end := Max(last.end, current.end);
        merged := merged[|merged| - 1 := Segment(last.start, end, end - last.start,
                                                 Max(last.confidence, current.confidence), NoType)];
      } else {
        merged := merged + [current];
      }
      i := i + 1;
    }
  }

  /** One more iteration of the merge loop, written as the loop body does it. */
  lemma CoalesceNext(s: seq<Segment>, i: nat)
    requires 1 <= i < |s|
    ensures var merged := CoalesceUpTo(s, i);
      var last := merged[|merged| - 1];
      var end := Max(last.end, s[i].end);
      CoalesceUpTo(s, i + 1)
        == if s[i].start <= last.end
           then merged[|merged| - 1 := Segment(last.start, end, end - last.start, Max(last.confidence, s[i].confidence), NoType)]
           else merged + [s[i]]
  {
  }

  /** Each segment ends strictly before the next one starts. */
  predicate Chained(r: seq<Segment>)
  {
    forall k :: 0 <= k < |r| - 1 ==> r[k].end < r[k + 1].start
  }

  /** Each segment of `r` starts at the start of one of the first `n`
      segments of `s`, and has the confidence of one of them. */
  predicate AttainedBy(r: seq<Segment>, s: seq<Segment>, n: nat)
    requires n <= |s|
  {
    forall k :: 0 <= k < |r| ==>
      && (exists j :: 0 <= j < n && r[k].start == s[j].start)
      && (exists j :: 0 <= j < n && r[k].confidence == s[j].confidence)
  }

  /** Every instant covered by a segment of `r` is covered by one of the
      first `n` segments of `s`. */
  ghost predicate CoveredBy(r: seq<Segment>, s: seq<Segment>, n: nat)
    requires n <= |s|
  {
    forall k, t :: 0 <= k < |r| && Covers(r[k], t) ==> exists j :: 0 <= j < n && Covers(s[j], t)
  }

  /** Each merged segment ends strictly before the next one starts. */
  lemma {:induction false} CoalesceChain(s: seq<Segment>, n: nat)
    requires n <= |s|
    ensures Chained(CoalesceUpTo(s, n))
    decreases n
  {
    if n > 1 {
      CoalesceChain(s, n - 1);
      var prev := CoalesceUpTo(s, n - 1);
      var r := CoalesceUpTo(s, n);
      var m := |prev| - 1;
      forall k | 0 <= k < |r| - 1 ensures r[k].end < r[k + 1].start {
        if s[n - 1].start <= prev[m].end {
          assert r[k] == prev[k];
          if k + 1 < m {
            assert r[k + 1] == prev[k + 1];
          } else {
            assert r[k + 1].start == prev[k + 1].start;
          }
        } else if k < m {
          assert r[k] == prev[k] && r[k + 1] == prev[k + 1];
        } else {
          assert r[k] == prev[m] && r[k + 1] == s[n - 1];
        }
      }
    }
  }

  /** Every merged segment starts, and reaches its confidence, at one of the inputs. */
  lemma {:induction false} CoalesceAttained(s: seq<Segment>, n: nat)
    requires n <= |s|
    ensures AttainedBy(CoalesceUpTo(s, n), s, n)
    decreases n
  {
    if n == 1 {
      assert CoalesceUpTo(s, n) == [s[0]];
    } else if n > 1 {
      CoalesceAttained(s, n - 1);
      var prev := CoalesceUpTo(s, n - 1);
      var r := CoalesceUpTo(s, n);
      var m := |prev| - 1;
      var cur := s[n - 1];
      var merges := cur.start <= prev[m].end;
      forall k | 0 <= k < |r|
        ensures exists j :: 0 <= j < n && r[k].start == s[j].start
        ensures exists j :: 0 <= j < n && r[k].confidence == s[j].confidence
      {
        if k < m || (k == m && !merges) {
          assert r[k] == prev[k];
          var j :| 0 <= j < n - 1 && prev[k].start == s[j].start;
          var j' :| 0 <= j' < n - 1 && prev[k].confidence == s[j'].confidence;
        } else if k == m {
          assert r[k] == Combine(prev[m], cur);
          var j :| 0 <= j < n - 1 && prev[m].start == s[j].start;
          var j' :| 0 <= j' < n - 1 && prev[m].confidence == s[j'].confidence;
        } else {
          assert r[k] == cur;
        }
      }
    }
  }

  /** Every instant a merged segment covers is covered by one of the inputs. */
  lemma {:induction false} CoalesceCovered(s: seq<Segment>, n: nat)
    requires n <= |s|
    ensures CoveredBy(CoalesceUpTo(s, n), s, n)
    decreases n
  {
    if n == 1 {
      assert CoalesceUpTo(s, n) == [s[0]];
    } else if n > 1 {
      CoalesceCovered(s, n - 1);
      var prev := CoalesceUpTo(s, n - 1);
      var r := CoalesceUpTo(s, n);
      var m := |prev| - 1;
      var cur := s[n - 1];
      var merges := cur.start <= prev[m].end;
      forall k, t | 0 <= k < |r| && Covers(r[k], t) ensures exists j :: 0 <= j < n && Covers(s[j], t) {
        if k < m || (k == m && !merges) {
          assert r[k] == prev[k];
          var j :| 0 <= j < n - 1 && Covers(s[j], t);
        } else if k == m {
          assert r[k] == Combine(prev[m], cur);
          if t <= prev[m].end {
            assert Covers(prev[m], t);
            var j :| 0 <= j < n - 1 && Covers(s[j], t);
          } else {
            assert Covers(s[n - 1], t);
          }
        } else {
          assert r[k] == cur;
          assert Covers(s[n - 1], t);
        }
      }
    }
  }

  /** Segment `o` encloses segment `x` and is at least as confident. */
  predicate Encloses(o: Segment, x: Segment)
  {
    o.start <= x.start && x.end <= o.end && x.confidence <= o.confidence
  }

  /** Some segment of `r` encloses `x`. */
  predicate EnclosedIn(r: seq<Segment>, x: Segment)
  {
    exists k :: 0 <= k < |r| && Encloses(r[k], x)
  }

  /** Each of the first `n` segments of `s` is enclosed by a segment of `r`. */
  predicate EnclosesAll(r: seq<Segment>, s: seq<Segment>, n: nat)
    requires n <= |s|
  {
    forall j :: 0 <= j < n ==> EnclosedIn(r, s[j])
  }

  /** On input sorted by start, the merged segments are sorted by start, and
      the last of them starts no later than the last input. */
  lemma {:induction false} CoalesceSorted(s: seq<Segment>, n: nat)
    requires n <= |s| && SortedBy(s, StartOf)
    ensures SortedBy(CoalesceUpTo(s, n), StartOf)
    ensures n > 0 ==> CoalesceUpTo(s, n)[|CoalesceUpTo(s, n)| - 1].start <= s[n - 1].start
    decreases n
  {
    if n > 1 {
      CoalesceSorted(s, n - 1);
      var prev := CoalesceUpTo(s, n - 1);
      var r := CoalesceUpTo(s, n);
      var m := |prev| - 1;
      assert StartOf(s[n - 2]) <= StartOf(s[n - 1]);
      if s[n - 1].start <= prev[m].end {
        assert forall k :: 0 <= k < |r| ==> r[k].start == prev[k].start;
      } else {
        assert forall k :: 0 <= k < m + 1 ==> r[k] == prev[k];
        assert r[m + 1] == s[n - 1];
      }
    }
  }

  /** On input sorted by start, every input segment lies within a merged
      segment that is at least as confident. */
  lemma {:induction false} CoalesceEncloses(s: seq<Segment>, n: nat)
    requires n <= |s| && SortedBy(s, StartOf)
    ensures EnclosesAll(CoalesceUpTo(s, n), s, n)
    decreases n
  {
    if n == 1 {
      assert Encloses(CoalesceUpTo(s, n)[0], s[0]);
    } else if n > 1 {
      CoalesceEncloses(s, n - 1);
      CoalesceSorted(s, n - 1);
      assert StartOf(s[n - 2]) <= StartOf(s[n - 1]);
      EnclosesEarlier(s, n);
      EnclosesLatest(s, n);
    }
  }

  /** Each segment of `r` takes its confidence from one of the first `n`
      segments of `s` that it encloses. */
  predicate ConfidenceFromEnclosed(r: seq<Segment>, s: seq<Segment>, n: nat)
    requires n <= |s|
  {
    forall k :: 0 <= k < |r| ==>
      exists j :: 0 <= j < n && Encloses(r[k], s[j]) && r[k].confidence == s[j].confidence
  }

  /** On input sorted by start, every merged segment has the confidence of
      an input it encloses. */
  lemma {:induction false} CoalesceConfidence(s: seq<Segment>, n: nat)
    requires n <= |s| && SortedBy(s, StartOf)
    ensures ConfidenceFromEnclosed(CoalesceUpTo(s, n), s, n)
    decreases n
  {
    if n == 1 {
      assert CoalesceUpTo(s, n) == [s[0]];
      assert Encloses(s[0], s[0]);
    } else if n > 1 {
      CoalesceConfidence(s, n - 1);
      CoalesceSorted(s, n - 1);
      assert StartOf(s[n - 2]) <= StartOf(s[n - 1]);
      var prev := CoalesceUpTo(s, n - 1);
      var r := CoalesceUpTo(s, n);
      var m := |prev| - 1;
      var cur := s[n - 1];
      var merges := cur.start <= prev[m].end;
      forall k | 0 <= k < |r|
        ensures exists j :: 0 <= j < n && Encloses(r[k], s[j]) && r[k].confidence == s[j].confidence
      {
        if k < m || (k == m && !merges) {
          assert r[k] == prev[k];
          var j :| 0 <= j < n - 1 && Encloses(prev[k], s[j]) && prev[k].confidence == s[j].confidence;
        } else if k == m {
          assert r[k] == Combine(prev[m], cur);
          if r[k].confidence == prev[m].confidence {
            var j :| 0 <= j < n - 1 && Encloses(prev[m], s[j]) && prev[m].confidence == s[j].confidence;
            assert Encloses(r[k], s[j]);
          } else {
            assert Encloses(r[k], s[n - 1]);
          }
        } else {
          assert r[k] == cur;
          assert Encloses(r[k], s[n - 1]);
        }
      }
    }
  }

  /** A merge step keeps every earlier input enclosed. */
  lemma EnclosesEarlier(s: seq<Segment>, n: nat)
    requires 1 < n <= |s| && EnclosesAll(CoalesceUpTo(s, n - 1), s, n - 1)
    ensures forall j :: 0 <= j < n - 1 ==> EnclosedIn(CoalesceUpTo(s, n), s[j])
  {
    var prev := CoalesceUpTo(s, n - 1);
    var r := CoalesceUpTo(s, n);
    var m := |prev| - 1;
    forall j | 0 <= j < n - 1 ensures EnclosedIn(r, s[j]) {
      var k :| 0 <= k < |prev| && Encloses(prev[k], s[j]);
      if k < m || s[n - 1].start > prev[m].end {
        assert r[k] == prev[k];
      } else {
        assert Encloses(r[k], prev[k]);
      }
    }
  }

  /** A merge step encloses the input it takes in, when that input starts no
      earlier than the last merged segment. */
  lemma EnclosesLatest(s: seq<Segment>, n: nat)
    requires 1 < n <= |s|
    requires CoalesceUpTo(s, n - 1)[|CoalesceUpTo(s, n - 1)| - 1].start <= s[n - 1].start
    ensures EnclosedIn(CoalesceUpTo(s, n), s[n - 1])
  {
    var prev := CoalesceUpTo(s, n - 1);
    var r := CoalesceUpTo(s, n);
    var m := |prev| - 1;
    if s[n - 1].start <= prev[m].end {
      assert Encloses(r[m], s[n - 1]);
    } else {
      assert Encloses(r[m + 1], s[n - 1]);
    }
  }

  /** The merge keeps every segment's closed interval, and the relation
      between its `duration` and its bounds, when every input does. */
  lemma {:induction false} CoalesceWellFormed(s: seq<Segment>, n: nat)
    requires n <= |s|
    ensures (forall j :: 0 <= j < n ==> s[j].start <= s[j].end) ==>
              forall k :: 0 <= k < |CoalesceUpTo(s, n)| ==> CoalesceUpTo(s, n)[k].start <= CoalesceUpTo(s, n)[k].end
    ensures (forall j :: 0 <= j < n ==> s[j].duration == s[j].end - s[j].start) ==>
              forall k :: 0 <= k < |CoalesceUpTo(s, n)| ==>
                CoalesceUpTo(s, n)[k].duration == CoalesceUpTo(s, n)[k].end - CoalesceUpTo(s, n)[k].start
    decreases n
  {
    if n > 1 {
      CoalesceWellFormed(s, n - 1);
      var prev := CoalesceUpTo(s, n - 1);
      var r := CoalesceUpTo(s, n);
      var m := |prev| - 1;
      assert forall k :: 0 <= k < |r| ==> r[k] == (if k < |prev| then prev[k] else s[n - 1]) || r[k] == Combine(prev[m], s[n - 1]);
    }
  }

  /** A sequence that is already separated passes through the merge loop unchanged. */
  lemma {:induction false} CoalesceIdentity(s: seq<Segment>, n: nat)
    requires n <= |s| && Chained(s)
    ensures CoalesceUpTo(s, n) == s[..n]
    decreases n
  {
    if n > 1 {
      CoalesceIdentity(s, n - 1);
      assert s[n - 2].end < s[n - 1].start;
      assert s[..n] == s[..n - 1] + [s[n - 1]];
    } else if n == 1 {
      assert s[..1] == [s[0]];
    }
  }

  /** In a separated sequence of segments that each start no later than they
      end, every segment ends before every later one starts. */
  lemma {:induction false} ChainedDisjoint(r: seq<Segment>, a: nat, b: nat)
    requires Chained(r) && forall k :: 0 <= k < |r| ==> r[k].start <= r[k].end
    requires a < b < |r|
    ensures r[a].end < r[b].start
    decreases b - a
  {
    if a + 1 < b {
      ChainedDisjoint(r, a + 1, b);
    }
  }

  /** The sorted copy holds the same segments as the input. */
  lemma SortedSameMembers(segs: seq<Segment>)
    ensures forall x :: x in segs <==> x in SortBy(segs, StartOf)
  {
    var sorted := SortBy(segs, StartOf);
    forall x ensures x in segs <==> x in sorted {
      assert x in segs <==> x in multiset(segs);
      assert x in sorted <==> x in multiset(sorted);
    }
  }

  /** `_merge_overlapping_segments` returns at most as many segments as it
      is given (none for none), sorted by start, each ending strictly before
      the next starts. */
  lemma MergedSegmentsShape(segs: seq<Segment>)
    ensures |MergedSegments(segs)| <= |segs|
    ensures MergedSegments(segs) == [] <==> segs == []
    ensures SortedBy(MergedSegments(segs), StartOf)
    ensures Chained(MergedSegments(segs))
  {
    var sorted := SortBy(segs, StartOf);
    SortBySorted(segs, StartOf);
    CoalesceSorted(sorted, |sorted|);
    CoalesceChain(sorted, |sorted|);
  }

  /** Every input segment lies within a merged segment that is at least as confident. */
  lemma MergedSegmentsEnclose(segs: seq<Segment>)
    ensures forall x :: x in segs ==> exists k :: 0 <= k < |MergedSegments(segs)| && Encloses(MergedSegments(segs)[k], x)
  {
    var sorted := SortBy(segs, StartOf);
    var out := MergedSegments(segs);
    SortBySorted(segs, StartOf);
    SortedSameMembers(segs);
    CoalesceEncloses(sorted, |sorted|);
    forall x | x in segs ensures exists k :: 0 <= k < |out| && Encloses(out[k], x) {
      var j :| 0 <= j < |sorted| && sorted[j] == x;
    }
  }

  /** Each merged segment starts at an input's start and has an input's confidence. */
  lemma MergedSegmentsAttained(segs: seq<Segment>)
    ensures forall o :: o in MergedSegments(segs) ==>
              (exists y :: y in segs && o.start == y.start) && (exists y :: y in segs && o.confidence == y.confidence)
  {
    var sorted := SortBy(segs, StartOf);
    var out := MergedSegments(segs);
    var n := |sorted|;
    SortedSameMembers(segs);
    CoalesceAttained(sorted, n);
    forall o | o in out
      ensures exists y :: y in segs && o.start == y.start
      ensures exists y :: y in segs && o.confidence == y.confidence
    {
      var k :| 0 <= k < |out| && out[k] == o;
      var j :| 0 <= j < n && out[k].start == sorted[j].start;
      var j' :| 0 <= j' < n && out[k].confidence == sorted[j'].confidence;
      assert sorted[j] in segs && sorted[j'] in segs;
    }
  }

  /** Each merged segment has the confidence of an input it encloses. As it
      is at least as confident as every input it encloses (`Encloses`), that
      is the maximum confidence of the inputs merged into it. */
  lemma MergedSegmentsConfidence(segs: seq<Segment>)
    ensures forall o :: o in MergedSegments(segs) ==>
              exists y :: y in segs && Encloses(o, y) && o.confidence == y.confidence
  {
    var sorted := SortBy(segs, StartOf);
    var out := MergedSegments(segs);
    SortedSameMembers(segs);
    SortBySorted(segs, StartOf);
    CoalesceConfidence(sorted, |sorted|);
    forall o | o in out ensures exists y :: y in segs && Encloses(o, y) && o.confidence == y.confidence {
      var k :| 0 <= k < |out| && out[k] == o;
      var j :| 0 <= j < |sorted| && Encloses(out[k], sorted[j]) && out[k].confidence == sorted[j].confidence;
      assert sorted[j] in segs;
    }
  }

  /** Each merged segment covers only instants some input covers. */
  lemma MergedSegmentsCovered(segs: seq<Segment>)
    ensures forall o, t :: o in MergedSegments(segs) && Covers(o, t) ==> exists y :: y in segs && Covers(y, t)
  {
    var sorted := SortBy(segs, StartOf);
    var out := MergedSegments(segs);
    var n := |sorted|;
    SortedSameMembers(segs);
    CoalesceCovered(sorted, n);
    forall o, t | o in out && Covers(o, t) ensures exists y :: y in segs && Covers(y, t) {
      var k :| 0 <= k < |out| && out[k] == o;
      var j :| 0 <= j < n && Covers(sorted[j], t);
      assert sorted[j] in segs;
    }
  }

  /** When every input starts no later than it ends, so does every merged
      segment, and every merged segment ends before every later one starts. */
  lemma MergedSegmentsDisjoint(segs: seq<Segment>)
    requires forall x :: x in segs ==> x.start <= x.end
    ensures forall o :: o in MergedSegments(segs) ==> o.start <= o.end
    ensures forall a, b :: 0 <= a < b < |MergedSegments(segs)| ==>
              MergedSegments(segs)[a].end < MergedSegments(segs)[b].start
  {
    var sorted := SortBy(segs, StartOf);
    var out := MergedSegments(segs);
    SortedSameMembers(segs);
    assert forall j :: 0 <= j < |sorted| ==> sorted[j] in segs;
    CoalesceWellFormed(sorted, |sorted|);
    CoalesceChain(sorted, |sorted|);
    forall a, b | 0 <= a < b < |out| ensures out[a].end < out[b].start {
      ChainedDisjoint(out, a, b);
    }
  }

  /** When every input's `duration` is its length, so is every merged segment's. */
  lemma MergedSegmentsDurations(segs: seq<Segment>)
    requires forall x :: x in segs ==> x.duration == x.end - x.start
    ensures forall o :: o in MergedSegments(segs) ==> o.duration == o.end - o.start
  {
    var sorted := SortBy(segs, StartOf);
    SortedSameMembers(segs);
    assert forall j :: 0 <= j < |sorted| ==> sorted[j] in segs;
    CoalesceWellFormed(sorted, |sorted|);
  }

  /** Merging merged segments changes nothing. */
  lemma MergeIdempotent(segs: seq<Segment>)
    ensures MergedSegments(MergedSegments(segs)) == MergedSegments(segs)
  {
    var out := MergedSegments(segs);
    MergedSegmentsShape(segs);
    SortByIdentity(out, StartOf);
    CoalesceIdentity(out, |out|);
    assert out[..|out|] == out;
  }

  /** Segments that are sorted by start and already separated pass through
      the merge unchanged; this holds for the amplitude segments. */
  lemma MergeKeepsSeparated(segs: seq<Segment>)
    requires SortedBy(segs, StartOf) && Chained(segs)
    ensures MergedSegments(segs) == segs
  {
    SortByIdentity(segs, StartOf);
    CoalesceIdentity(segs, |segs|);
    assert segs[..|segs|] == segs;
  }

  // ---------------------------------------------------------------------
  // `enhanced_silence_detection`

  /** `sum(seg['duration'] for seg in all_segments)`. */
  function TotalDuration(segs: seq<Segment>): (r: real)
    ensures (forall x :: x in segs ==> x.duration >= 0.0) ==> r >= 0.0
    decreases |segs|
  {
    if segs == [] then 0.0
    else
      assert forall x :: x in segs[1..] ==> x in segs;
      segs[0].duration + TotalDuration(segs[1..])
  }

  /** The success dictionary of `enhanced_silence_detection`. */
  datatype Report = Report(silenceSegments: seq<Segment>, totalSilenceDuration: real,
                           originalDuration: real, timeSaved: real)

  /** The segments found before any merging: the amplitude segments, then
      the speech gaps when a transcription is available. */
  function Candidates(isSilent: seq<bool>, minDuration: real, transcription: Option<seq<Transcribed>>): seq<Segment>
  {
    match transcription
    case None => AmplitudeSegments(isSilent, minDuration)
    case Some(ts) => AmplitudeSegments(isSilent, minDuration) + Gaps(ts, minDuration)
  }

  /** The segments `enhanced_silence_detection` reports: the amplitude
      segments alone when the transcription failed (`None`), and otherwise
      those merged with the speech gaps of the transcription. */
  function DetectedSegments(isSilent: seq<bool>, minDuration: real, transcription: Option<seq<Transcribed>>): seq<Segment>
  {
    match transcription
    case None => AmplitudeSegments(isSilent, minDuration)
    case Some(_) => MergedSegments(Candidates(isSilent, minDuration, transcription))
  }

  /** The report of `enhanced_silence_detection` for the given decibel
      levels, transcription and file duration. */
  function EnhancedReport(levelsDb: seq<real>, silenceThreshold: real, minDuration: real,
                          transcription: Option<seq<Transcribed>>, originalDuration: real): Report
  {
    var segs := DetectedSegments(IsSilent(levelsDb, silenceThreshold), minDuration, transcription);
    Report(segs, TotalDuration(segs), originalDuration, TotalDuration(segs))
  }

  /** `enhanced_silence_detection`: the amplitude scan, then, if a
      transcription is available, its speech gaps, combined and merged.
      The transcription (or its failure) and the file's duration are inputs. */
  method EnhancedSilenceDetection(levelsDb: seq<real>, silenceThreshold: real, minDuration: real,
                                  transcription: Option<seq<Transcribed>>, originalDuration: real)
    returns (report: Report)
    ensures report == EnhancedReport(levelsDb, silenceThreshold, minDuration, transcription, originalDuration)
  {
    var amplitudeSegments := DetectSilence(levelsDb, silenceThreshold, minDuration);
    var allSegments: seq<Segment>;
    match transcription {
      case None =>
        allSegments := amplitudeSegments;
      case Some(ts) =>
        var whisperGaps := SpeechGaps(ts, minDuration);
        allSegments := MergeOverlappingSegments(amplitudeSegments + whisperGaps);
        assert amplitudeSegments + whisperGaps == Candidates(IsSilent(levelsDb, silenceThreshold), minDuration, transcription);
    }
    var totalSilence := TotalDuration(allSegments);
    report := Report(allSegments, totalSilence, originalDuration, totalSilence);
  }

  /** The total of segments whose `duration` is their length is the sum of
      those lengths, and is not negative when none is. */
  lemma {:induction false} TotalDurationNonNegative(segs: seq<Segment>)
    requires forall x :: x in segs ==> x.duration == x.end - x.start && x.start <= x.end
    ensures TotalDuration(segs) >= 0.0
    decreases |segs|
  {
    if segs != [] {
      assert forall x :: x in segs[1..] ==> x in segs;
      TotalDurationNonNegative(segs[1..]);
    }
  }

  /** Every candidate starts no later than it ends and has its length as
      its `duration`, when `minDuration` is not negative. */
  lemma CandidatesWellFormed(isSilent: seq<bool>, minDuration: real, transcription: Option<seq<Transcribed>>)
    requires minDuration >= 0.0
    ensures forall x :: x in Candidates(isSilent, minDuration, transcription) ==>
              x.start <= x.end && x.duration == x.end - x.start
  {
    AmplitudeSegmentsOrdered(isSilent, minDuration);
    match transcription
    case None =>
    case Some(ts) =>
      GapsExact(ts, minDuration);
  }

  /** With a non-negative `minDuration`, `enhanced_silence_detection`
      reports segments sorted by start, each ending before the next starts,
      each with its length as its `duration`; every candidate lies within a
      reported segment that is at least as confident, and every reported
      instant is covered by a candidate. */
  lemma DetectedSegmentsSound(isSilent: seq<bool>, minDuration: real, transcription: Option<seq<Transcribed>>)
    requires minDuration >= 0.0
    ensures forall o :: o in DetectedSegments(isSilent, minDuration, transcription) ==>
              o.start <= o.end && o.duration == o.end - o.start
    ensures forall a, b :: 0 <= a < b < |DetectedSegments(isSilent, minDuration, transcription)| ==>
              DetectedSegments(isSilent, minDuration, transcription)[a].end
                < DetectedSegments(isSilent, minDuration, transcription)[b].start
    ensures SortedBy(DetectedSegments(isSilent, minDuration, transcription), StartOf)
    ensures forall x :: x in Candidates(isSilent, minDuration, transcription) ==>
              exists k :: 0 <= k < |DetectedSegments(isSilent, minDuration, transcription)|
                && Encloses(DetectedSegments(isSilent, minDuration, transcription)[k], x)
    ensures forall o, t :: o in DetectedSegments(isSilent, minDuration, transcription) && Covers(o, t) ==>
              exists y :: y in Candidates(isSilent, minDuration, transcription) && Covers(y, t)
  {
    var candidates := Candidates(isSilent, minDuration, transcription);
    var out := DetectedSegments(isSilent, minDuration, transcription);
    CandidatesWellFormed(isSilent, minDuration, transcription);
    match transcription
    case None =>
      AmplitudeSegmentsOrdered(isSilent, minDuration);
      assert SortedBy(out, StartOf) by {
        forall a, b | 0 <= a < b < |out| ensures StartOf(out[a]) <= StartOf(out[b]) {
          assert out[a] in out;
        }
      }
      forall x | x in candidates ensures exists k :: 0 <= k < |out| && Encloses(out[k], x) {
        var k :| 0 <= k < |out| && out[k] == x;
      }
    case Some(_) =>
      MergedSegmentsShape(candidates);
      MergedSegmentsEnclose(candidates);
      MergedSegmentsCovered(candidates);
      MergedSegmentsDisjoint(candidates);
      MergedSegmentsDurations(candidates);
  }

  /** With a non-negative `minDuration`, the reported total silence, which
      is also the reported time saved, is not negative. */
  lemma EnhancedReportTotals(levelsDb: seq<real>, silenceThreshold: real, minDuration: real,
                             transcription: Option<seq<Transcribed>>, originalDuration: real)
    requires minDuration >= 0.0
    ensures EnhancedReport(levelsDb, silenceThreshold, minDuration, transcription, originalDuration).totalSilenceDuration >= 0.0
    ensures EnhancedReport(levelsDb, silenceThreshold, minDuration, transcription, originalDuration).timeSaved
         == EnhancedReport(levelsDb, silenceThreshold, minDuration, transcription, originalDuration).totalSilenceDuration
  {
    var isSilent := IsSilent(levelsDb, silenceThreshold);
    DetectedSegmentsSound(isSilent, minDuration, transcription);
    TotalDurationNonNegative(DetectedSegments(isSilent, minDuration, transcription));
  }
}
