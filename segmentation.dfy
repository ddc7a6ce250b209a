/** Energy-based voice-activity segmentation.

    A per-frame energy curve is turned into speech intervals: every frame whose
    energy is strictly above `mean(energy) * multiplier` is flagged as speech,
    maximal runs of flagged frames become half-open frame ranges
    `[startFrame, endFrame)`, frame indices become seconds as
    `frame * hopLength / sampleRate`, and only runs lasting strictly longer than
    `minDuration` seconds are reported.  Both servers run this same routine with
    different constants (see modules ColabModel and FastapiServer).

    Floating point is modelled by exact reals and `round(..., 2)` is not applied.
 */
module Segmentation {

  datatype Option<T> = None | Some(value: T)

  /** The constants one server passes to the routine. `withEnergy` says whether
      each reported segment carries its mean energy. */
  datatype Config = Config(
    hopLength: int,
    sampleRate: int,
    multiplier: real,
    minDuration: real,
    withEnergy: bool)

  predicate ValidConfig(cfg: Config)
  {
    cfg.hopLength > 0 && cfg.sampleRate > 0
  }

  /** A half-open range of frames `[startFrame, endFrame)`. */
  datatype Run = Run(startFrame: int, endFrame: int)

  /** One reported segment, in seconds. `energy == None` stands for a segment
      record that has no energy entry at all. */
  datatype Segment = Segment(start: real, end: real, duration: real, energy: Option<real>)

  // ---------------------------------------------------------------------------
  // Energy curve, threshold and flags

  function Sum(xs: seq<real>): real
  {
    if xs == [] then 0.0 else xs[0] + Sum(xs[1..])
  }

  /** Arithmetic mean; the empty curve has no frames, so its value there is never used. */
  function Mean(xs: seq<real>): (mean: real)
    ensures |xs| > 0 ==> mean * |xs| as real == Sum(xs)
  {
    if xs == [] then 0.0 else Sum(xs) / |xs| as real
  }

  predicate NonNegative(xs: seq<real>)
  {
    forall j :: 0 <= j < |xs| ==> xs[j] >= 0.0
  }

  /** The single adaptive threshold of one call: a fixed multiple of the mean
      energy, so never negative for an RMS curve and a non-negative multiplier. */
  function Threshold(energy: seq<real>, cfg: Config): (threshold: real)
    ensures NonNegative(energy) && cfg.multiplier >= 0.0 ==> threshold >= 0.0
  {
    var mean := Mean(energy);
    assert NonNegative(energy) ==> mean >= 0.0 by {
      if NonNegative(energy) {
        SumNonNegative(energy);
      }
    }
    mean * cfg.multiplier
  }

  /** The speech flag of every frame: strictly above the threshold. */
  function Flags(energy: seq<real>, threshold: real): (flags: seq<bool>)
    ensures |flags| == |energy|
  {
    seq(|energy|, j requires 0 <= j < |energy| => energy[j] > threshold)
  }

  /** Number of flagged frames. */
  function Count(flags: seq<bool>): nat
  {
    if flags == [] then 0 else (if flags[0] then 1 else 0) + Count(flags[1..])
  }

  /** Seconds at which a frame starts (or, for a count of frames, how long they
      last): frame 0 is at 0 s and later frames at positive times. */
  function FrameTime(frame: int, cfg: Config): (seconds: real)
    requires ValidConfig(cfg)
    ensures seconds == 0.0 <==> frame == 0
    ensures seconds > 0.0 <==> frame > 0
  {
    frame as real * cfg.hopLength as real / cfg.sampleRate as real
  }

  // ---------------------------------------------------------------------------
  // Runs of flagged frames

  predicate AllSpeech(flags: seq<bool>, s: int, e: int)
    requires 0 <= s <= e <= |flags|
  {
    forall j :: s <= j < e ==> flags[j]
  }

  /** Declarative reference: `r` is a non-empty run of flagged frames that can be
      extended neither to the left nor to the right. */
  predicate IsMaximalRun(flags: seq<bool>, r: Run)
  {
    && 0 <= r.startFrame < r.endFrame <= |flags|
    && AllSpeech(flags, r.startFrame, r.endFrame)
    && (r.startFrame == 0 || !flags[r.startFrame - 1])
    && (r.endFrame == |flags| || !flags[r.endFrame])
  }

  /** Runs in strictly increasing order, a gap of at least one frame between neighbours. */
  predicate Ordered(runs: seq<Run>)
  {
    forall j, k :: 0 <= j < k < |runs| ==> runs[j].endFrame < runs[k].startFrame
  }

  /** Where the inner scan stops when started at frame `i`: the first unflagged
      frame at or after `i`, or the end of the curve. */
  function RunEnd(flags: seq<bool>, i: int): (e: int)
    requires 0 <= i <= |flags|
    ensures i <= e <= |flags|
    ensures AllSpeech(flags, i, e)
    ensures e == |flags| || !flags[e]
    decreases |flags| - i
  {
    if i < |flags| && flags[i] then RunEnd(flags, i + 1) else i
  }

  /** The runs the outer scan collects from frame `i` on, left to right. */
  function Runs(flags: seq<bool>, i: int): (runs: seq<Run>)
    requires 0 <= i <= |flags|
    ensures forall r :: r in runs ==> i <= r.startFrame < r.endFrame <= |flags|
    decreases |flags| - i
  {
    if i == |flags| then []
    else if flags[i] then
      var e := RunEnd(flags, i);
      [Run(i, e)] + Runs(flags, e)
    else Runs(flags, i + 1)
  }

  /** Collected runs are separated by unflagged frames, so from frame `i` on
      there are at most `(|flags| - i + 1) / 2` of them. */
  lemma {:induction false} RunsAtMostHalf(flags: seq<bool>, i: int)
    requires 0 <= i <= |flags|
    ensures |Runs(flags, i)| * 2 <= |flags| - i + 1
    decreases |flags| - i
  {
    if i < |flags| {
      if flags[i] {
        var e := RunEnd(flags, i);
        if e < |flags| {
          assert Runs(flags, e) == Runs(flags, e + 1);
          RunsAtMostHalf(flags, e + 1);
        }
      } else {
        RunsAtMostHalf(flags, i + 1);
      }
    }
  }

  /** The minimum-duration test, strict; with a non-negative minimum only a
      non-empty run can pass it. */
  predicate Long(r: Run, cfg: Config)
    requires ValidConfig(cfg)
    ensures Long(r, cfg) && cfg.minDuration >= 0.0 ==> r.startFrame < r.endFrame
  {
    FrameTime(r.endFrame - r.startFrame, cfg) > cfg.minDuration
  }

  /** The runs that pass the minimum-duration test, in their original order. */
  function Kept(runs: seq<Run>, cfg: Config): (kept: seq<Run>)
    requires ValidConfig(cfg)
    ensures |kept| <= |runs|
  {
    if runs == [] then []
    else (if Long(runs[0], cfg) then [runs[0]] else []) + Kept(runs[1..], cfg)
  }

  /** The filter keeps exactly the long runs. */
  lemma {:induction false} KeptMembers(runs: seq<Run>, cfg: Config)
    requires ValidConfig(cfg)
    ensures forall r :: r in Kept(runs, cfg) <==> r in runs && Long(r, cfg)
  {
    if runs != [] {
      KeptMembers(runs[1..], cfg);
      assert runs == [runs[0]] + runs[1..];
    }
  }

  /** Total number of frames covered by a list of runs. */
  function Frames(runs: seq<Run>): int
  {
    if runs == [] then 0 else (runs[0].endFrame - runs[0].startFrame) + Frames(runs[1..])
  }

  // ---------------------------------------------------------------------------
  // Segments

  predicate WithinCurve(runs: seq<Run>, n: int)
  {
    forall r :: r in runs ==> 0 <= r.startFrame <= r.endFrame <= n
  }

  /** The segment record reported for one run: its duration is exactly end
      minus start, and it carries an energy exactly when configured to. */
  function SegmentOf(energy: seq<real>, r: Run, cfg: Config): (segment: Segment)
    requires ValidConfig(cfg)
    requires 0 <= r.startFrame <= r.endFrame <= |energy|
    ensures 0.0 <= segment.start <= segment.end
    ensures segment.duration == segment.end - segment.start
    ensures segment.energy.Some? <==> cfg.withEnergy
  {
    FrameTimeLinear(0, r.startFrame, cfg);
    FrameTimeLinear(r.startFrame, r.endFrame, cfg);
    FrameTimeLinear(r.startFrame, r.endFrame - r.startFrame, cfg);
    Segment(
      FrameTime(r.startFrame, cfg),
      FrameTime(r.endFrame, cfg),
      FrameTime(r.endFrame - r.startFrame, cfg),
      if cfg.withEnergy then Some(Mean(energy[r.startFrame..r.endFrame])) else None)
  }

  function ToSegments(energy: seq<real>, runs: seq<Run>, cfg: Config): (segments: seq<Segment>)
    requires ValidConfig(cfg)
    requires WithinCurve(runs, |energy|)
    ensures |segments| == |runs|
  {
    if runs == [] then []
    else [SegmentOf(energy, runs[0], cfg)] + ToSegments(energy, runs[1..], cfg)
  }

  /** The `k`-th segment is the record of the `k`-th run. */
  lemma {:induction false} ToSegmentsAt(energy: seq<real>, runs: seq<Run>, cfg: Config)
    requires ValidConfig(cfg)
    requires WithinCurve(runs, |energy|)
    ensures forall k :: 0 <= k < |runs| ==> ToSegments(energy, runs, cfg)[k] == SegmentOf(energy, runs[k], cfg)
  {
    if runs != [] {
      ToSegmentsAt(energy, runs[1..], cfg);
    }
  }

  /** The frame ranges of the reported segments. */
  function SpeechRuns(energy: seq<real>, cfg: Config): (runs: seq<Run>)
    requires ValidConfig(cfg)
    ensures WithinCurve(runs, |energy|)
  {
    var all := Runs(Flags(energy, Threshold(energy, cfg)), 0);
    KeptMembers(all, cfg);
    Kept(all, cfg)
  }

  /** The segments the loop still appends once it stands at frame `i`: the
      recursive form of the nested scan, one run or one skipped frame per step. */
  ghost function Scan(energy: seq<real>, flags: seq<bool>, i: int, cfg: Config): seq<Segment>
    requires ValidConfig(cfg)
    requires |flags| == |energy| && 0 <= i <= |flags|
    decreases |flags| - i
  {
    if i == |flags| then []
    else if flags[i] then
      var e := RunEnd(flags, i);
      (if Long(Run(i, e), cfg) then [SegmentOf(energy, Run(i, e), cfg)] else [])
      + Scan(energy, flags, e, cfg)
    else Scan(energy, flags, i + 1, cfg)
  }

  /** The reported segments. Neighbouring segments are at least one frame
      apart, so a curve of `n` frames holds at most `(n + 1) / 2` of them. */
  function Segments(energy: seq<real>, cfg: Config): (segments: seq<Segment>)
    requires ValidConfig(cfg)
    ensures |segments| * 2 <= |energy| + 1
  {
    RunsAtMostHalf(Flags(energy, Threshold(energy, cfg)), 0);
    ToSegments(energy, SpeechRuns(energy, cfg), cfg)
  }

  // ---------------------------------------------------------------------------
  // Summary values shared by both servers

  predicate NonNegativeDurations(segments: seq<Segment>)
  {
    forall k :: 0 <= k < |segments| ==> segments[k].duration >= 0.0
  }

  /** Sum of the reported durations; non-negative when every duration is. */
  function TotalSpeech(segments: seq<Segment>): (total: real)
    ensures NonNegativeDurations(segments) ==> total >= 0.0
  {
    if segments == [] then 0.0 else segments[0].duration + TotalSpeech(segments[1..])
  }

  /** Length in seconds of `sampleCount` samples. */
  function AudioDuration(sampleCount: nat, sampleRate: int): (duration: real)
    requires sampleRate > 0
    ensures duration >= 0.0
    ensures duration * sampleRate as real == sampleCount as real
  {
    sampleCount as real / sampleRate as real
  }

  /** Unclamped share of speech in percent, 0 for a zero-length recording. */
  function SpeechPercentage(totalSpeech: real, duration: real): (percentage: real)
    ensures duration > 0.0 ==> percentage * duration == totalSpeech * 100.0
    ensures duration <= 0.0 ==> percentage == 0.0
    ensures totalSpeech >= 0.0 ==> percentage >= 0.0
  {
    if duration > 0.0 then totalSpeech / duration * 100.0 else 0.0
  }

  // ---------------------------------------------------------------------------
  // The scan itself

  /** The nested scan over the speech flags. Every outer iteration either skips an
      unflagged frame or consumes a whole run, so `i` strictly increases. */
  method DetectSegments(energy: seq<real>, cfg: Config) returns (segments: seq<Segment>)
    requires ValidConfig(cfg)
    ensures segments == Segments(energy, cfg)
  {
    hide Segments, SpeechRuns, ToSegments, Kept, Runs, Threshold, Mean, Sum, Count;
    var threshold := Threshold(energy, cfg);
    var speechFrames := Flags(energy, threshold);
    segments := [];
    var i := 0;
    while i < |speechFrames|
      invariant 0 <= i <= |speechFrames|
      invariant segments + Scan(energy, speechFrames, i, cfg) == Scan(energy, speechFrames, 0, cfg)
      decreases |speechFrames| - i
    {
      if speechFrames[i] {
        var startFrame := i;
        ghost var before := segments;
        while i < |speechFrames| && speechFrames[i]
          invariant startFrame <= i <= |speechFrames|
          invariant RunEnd(speechFrames, i) == RunEnd(speechFrames, startFrame)
          decreases |speechFrames| - i
        {
          i := i + 1;
        }
        var endFrame := i;
        ghost var run := Run(startFrame, endFrame);
        ghost var later := Scan(energy, speechFrames, endFrame, cfg);
        assert endFrame == RunEnd(speechFrames, startFrame);
        assert Scan(energy, speechFrames, startFrame, cfg)
               == (if Long(run, cfg) then [SegmentOf(energy, run, cfg)] else []) + later;
        var durationSeg := FrameTime(endFrame - startFrame, cfg);
        if durationSeg > cfg.minDuration {
          var meanEnergy := if cfg.withEnergy then Some(Mean(energy[startFrame..endFrame])) else None;
          var segment := Segment(FrameTime(startFrame, cfg), FrameTime(endFrame, cfg), durationSeg, meanEnergy);
          assert Long(run, cfg) && segment == SegmentOf(energy, run, cfg);
          assert before + ([segment] + later) == (before + [segment]) + later;
          segments := segments + [segment];
        } else {
          assert !Long(run, cfg);
          assert [] + later == later;
        }
      } else {
        i := i + 1;
      }
    }
    ScanIsSegments(energy, cfg);
  }

  // ---------------------------------------------------------------------------
  // Helpers for the scan

  lemma KeptCons(r: Run, rest: seq<Run>, cfg: Config)
    requires ValidConfig(cfg)
    ensures Kept([r] + rest, cfg) == (if Long(r, cfg) then [r] else []) + Kept(rest, cfg)
  {
    assert ([r] + rest)[1..] == rest;
  }

  /** The loop's recursive form computes the pipeline runs, filter, segments. */
  lemma {:induction false} ScanIsPipeline(energy: seq<real>, flags: seq<bool>, i: int, cfg: Config)
    requires ValidConfig(cfg)
    requires |flags| == |energy| && 0 <= i <= |flags|
    ensures WithinCurve(Kept(Runs(flags, i), cfg), |energy|)
            && Scan(energy, flags, i, cfg) == ToSegments(energy, Kept(Runs(flags, i), cfg), cfg)
    decreases |flags| - i
  {
    KeptMembers(Runs(flags, i), cfg);
    if i == |flags| {
    } else if flags[i] {
      var e := RunEnd(flags, i);
      var run, rest := Run(i, e), Runs(flags, e);
      ScanIsPipeline(energy, flags, e, cfg);
      assert Kept(Runs(flags, i), cfg) == (if Long(run, cfg) then [run] else []) + Kept(rest, cfg) by {
        assert Runs(flags, i) == [run] + rest;
        KeptCons(run, rest, cfg);
      }
      if Long(run, cfg) {
        ToSegmentsCons(energy, run, Kept(rest, cfg), cfg);
      } else {
        assert [] + Kept(rest, cfg) == Kept(rest, cfg);
      }
    } else {
      ScanIsPipeline(energy, flags, i + 1, cfg);
    }
  }

  /** The loop's recursive form from frame 0 is the reported segment list. */
  lemma ScanIsSegments(energy: seq<real>, cfg: Config)
    requires ValidConfig(cfg)
    ensures Scan(energy, Flags(energy, Threshold(energy, cfg)), 0, cfg) == Segments(energy, cfg)
  {
    ScanIsPipeline(energy, Flags(energy, Threshold(energy, cfg)), 0, cfg);
  }

  lemma ToSegmentsCons(energy: seq<real>, r: Run, rest: seq<Run>, cfg: Config)
    requires ValidConfig(cfg)
    requires WithinCurve([r] + rest, |energy|)
    ensures ToSegments(energy, [r] + rest, cfg)
            == [SegmentOf(energy, r, cfg)] + ToSegments(energy, rest, cfg)
  {
    assert ([r] + rest)[1..] == rest;
  }

  // ---------------------------------------------------------------------------
  // Runs are exactly the maximal runs, in order

  /** Every run collected from frame `i` on is flagged throughout, stops at an
      unflagged frame or the end, and starts at `i` or right after an unflagged
      frame. */
  lemma {:induction false} RunsSound(flags: seq<bool>, i: int)
    requires 0 <= i <= |flags|
    ensures forall r :: r in Runs(flags, i) ==>
              && AllSpeech(flags, r.startFrame, r.endFrame)
              && (r.endFrame == |flags| || !flags[r.endFrame])
              && (r.startFrame == i || !flags[r.startFrame - 1])
    decreases |flags| - i
  {
    hide RunEnd;
    if i == |flags| {
    } else if flags[i] {
      var e := RunEnd(flags, i);
      var rest := Runs(flags, e);
      RunsSound(flags, e);
      assert Runs(flags, i) == [Run(i, e)] + rest;
      forall r | r in rest
        ensures !flags[r.startFrame - 1]
      {
        assert flags[r.startFrame];
      }
    } else {
      RunsSound(flags, i + 1);
    }
  }

  /** The collected runs are in increasing order with a gap between neighbours. */
  lemma {:induction false} RunsOrdered(flags: seq<bool>, i: int)
    requires 0 <= i <= |flags|
    ensures Ordered(Runs(flags, i))
    decreases |flags| - i
  {
    hide RunEnd;
    if i == |flags| {
    } else if flags[i] {
      var e := RunEnd(flags, i);
      var rest := Runs(flags, e);
      RunsOrdered(flags, e);
      RunsSound(flags, e);
      assert Runs(flags, i) == [Run(i, e)] + rest;
      forall k | 0 <= k < |rest|
        ensures e < rest[k].startFrame
      {
        assert rest[k] in rest;
        assert flags[rest[k].startFrame];
      }
    } else {
      RunsOrdered(flags, i + 1);
    }
  }

  /** Every flagged frame from `i` on lies inside some collected run. */
  lemma {:induction false} RunsComplete(flags: seq<bool>, i: int)
    requires 0 <= i <= |flags|
    ensures forall j :: i <= j < |flags| && flags[j] ==>
              exists r :: r in Runs(flags, i) && r.startFrame <= j < r.endFrame
    decreases |flags| - i
  {
    if i == |flags| {
    } else if flags[i] {
      var e := RunEnd(flags, i);
      var rest := Runs(flags, e);
      RunsComplete(flags, e);
      assert Runs(flags, i) == [Run(i, e)] + rest;
      forall j | i <= j < |flags| && flags[j]
        ensures exists r :: r in Runs(flags, i) && r.startFrame <= j < r.endFrame
      {
        if j < e {
          assert Run(i, e) in Runs(flags, i);
        } else {
          var r :| r in rest && r.startFrame <= j < r.endFrame;
          assert r in Runs(flags, i);
        }
      }
    } else {
      RunsComplete(flags, i + 1);
    }
  }

  /** Two maximal runs that share a frame are the same run. */
  lemma MaximalRunsUnique(flags: seq<bool>, a: Run, b: Run, j: int)
    requires IsMaximalRun(flags, a) && IsMaximalRun(flags, b)
    requires a.startFrame <= j < a.endFrame && b.startFrame <= j < b.endFrame
    ensures a == b
  {
  }

  /** The scan from frame 0 collects exactly the maximal runs, in increasing order. */
  lemma RunsExact(flags: seq<bool>)
    ensures forall r :: r in Runs(flags, 0) <==> IsMaximalRun(flags, r)
    ensures Ordered(Runs(flags, 0))
  {
    RunsSound(flags, 0);
    RunsOrdered(flags, 0);
    RunsComplete(flags, 0);
    forall r | IsMaximalRun(flags, r)
      ensures r in Runs(flags, 0)
    {
      assert flags[r.startFrame];
      var q :| q in Runs(flags, 0) && q.startFrame <= r.startFrame < q.endFrame;
      MaximalRunsUnique(flags, q, r, r.startFrame);
    }
  }

  /** If every frame is flagged, the whole curve is one run. */
  lemma WholeCurveOneRun(flags: seq<bool>)
    requires |flags| > 0
    requires forall j :: 0 <= j < |flags| ==> flags[j]
    ensures Runs(flags, 0) == [Run(0, |flags|)]
  {
    assert RunEnd(flags, 0) == |flags|;
  }

  /** Filtering keeps the order. */
  lemma {:induction false} KeptOrdered(runs: seq<Run>, cfg: Config)
    requires ValidConfig(cfg)
    requires Ordered(runs)
    ensures Ordered(Kept(runs, cfg))
  {
    if runs != [] {
      var tail := runs[1..];
      assert Ordered(tail);
      KeptOrdered(tail, cfg);
      KeptMembers(tail, cfg);
      var kt := Kept(tail, cfg);
      if Long(runs[0], cfg) {
        assert Kept(runs, cfg) == [runs[0]] + kt;
        forall k | 0 <= k < |kt|
          ensures runs[0].endFrame < kt[k].startFrame
        {
          assert kt[k] in tail;
          var m :| 0 <= m < |tail| && tail[m] == kt[k];
          assert runs[m + 1] == kt[k];
        }
      } else {
        assert Kept(runs, cfg) == kt;
      }
    }
  }

  /** The frame ranges behind the reported segments: exactly the maximal runs of
      frames above the threshold that last longer than the minimum, in
      increasing order with a gap between neighbours. */
  lemma SpeechRunsExact(energy: seq<real>, cfg: Config)
    requires ValidConfig(cfg)
    ensures forall r :: r in SpeechRuns(energy, cfg) <==>
              IsMaximalRun(Flags(energy, Threshold(energy, cfg)), r) && Long(r, cfg)
    ensures Ordered(SpeechRuns(energy, cfg))
  {
    var flags := Flags(energy, Threshold(energy, cfg));
    RunsExact(flags);
    KeptMembers(Runs(flags, 0), cfg);
    KeptOrdered(Runs(flags, 0), cfg);
  }

  /** A curve whose every frame lies above the threshold gives exactly one
      segment spanning the whole curve when that lasts longer than the minimum,
      and none otherwise. With non-negative energy and a multiplier of at least
      1, as in both servers, no curve has every frame above the threshold (the
      sum would exceed itself), so this case arises only for negative energies,
      which an RMS curve never has. */
  lemma WholeCurveOneSegment(energy: seq<real>, cfg: Config)
    requires ValidConfig(cfg)
    requires |energy| > 0
    requires forall j :: 0 <= j < |energy| ==> energy[j] > Threshold(energy, cfg)
    ensures var whole := Run(0, |energy|);
      Segments(energy, cfg) == if Long(whole, cfg) then [SegmentOf(energy, whole, cfg)] else []
  {
    var flags := Flags(energy, Threshold(energy, cfg));
    WholeCurveOneRun(flags);
    var whole := Run(0, |energy|);
    assert Kept([whole], cfg) == if Long(whole, cfg) then [whole] else [];
  }

  // ---------------------------------------------------------------------------
  // Frames to seconds

  lemma FrameTimeLinear(a: int, b: int, cfg: Config)
    requires ValidConfig(cfg)
    ensures FrameTime(a, cfg) + FrameTime(b, cfg) == FrameTime(a + b, cfg)
    ensures a < b ==> FrameTime(a, cfg) < FrameTime(b, cfg)
    ensures a <= b ==> FrameTime(a, cfg) <= FrameTime(b, cfg)
  {
    var h, s := cfg.hopLength as real, cfg.sampleRate as real;
    assert FrameTime(a, cfg) == a as real * h / s;
    assert FrameTime(b, cfg) == b as real * h / s;
    assert FrameTime(a + b, cfg) == (a as real + b as real) * h / s;
    if a < b {
      assert a as real * h < b as real * h;
    }
  }

  lemma SegmentOfLongRun(energy: seq<real>, r: Run, cfg: Config)
    requires ValidConfig(cfg)
    requires 0 <= r.startFrame < r.endFrame <= |energy|
    requires Long(r, cfg)
    ensures var segment := SegmentOf(energy, r, cfg);
      && 0.0 <= segment.start < segment.end
      && segment.duration == segment.end - segment.start
      && segment.duration > cfg.minDuration
  {
    FrameTimeLinear(0, r.startFrame, cfg);
    FrameTimeLinear(r.startFrame, r.endFrame, cfg);
    FrameTimeLinear(r.startFrame, r.endFrame - r.startFrame, cfg);
  }

  /** Seconds of every reported segment: start and end are the frame times of the
      run's ends, duration is exactly end minus start and exceeds the minimum,
      and segments are chronological and never touch. */
  lemma SegmentsChronological(energy: seq<real>, cfg: Config)
    requires ValidConfig(cfg)
    ensures var segments := Segments(energy, cfg);
      && (forall k :: 0 <= k < |segments| ==>
            && 0.0 <= segments[k].start < segments[k].end
            && segments[k].duration == segments[k].end - segments[k].start
            && segments[k].duration > cfg.minDuration)
      && (forall j, k :: 0 <= j < k < |segments| ==> segments[j].end < segments[k].start)
  {
    var runs := SpeechRuns(energy, cfg);
    var segments := Segments(energy, cfg);
    SpeechRunsExact(energy, cfg);
    ToSegmentsAt(energy, runs, cfg);
    forall k | 0 <= k < |segments|
      ensures && 0.0 <= segments[k].start < segments[k].end
              && segments[k].duration == segments[k].end - segments[k].start
              && segments[k].duration > cfg.minDuration
    {
      assert runs[k] in runs;
      SegmentOfLongRun(energy, runs[k], cfg);
    }
    forall j, k | 0 <= j < k < |segments|
      ensures segments[j].end < segments[k].start
    {
      assert runs[j].endFrame < runs[k].startFrame;
      FrameTimeLinear(runs[j].endFrame, runs[k].startFrame, cfg);
    }
  }

  // ---------------------------------------------------------------------------
  // Mean energy of a segment

  lemma {:induction false} SumAbove(xs: seq<real>, t: real)
    requires forall j :: 0 <= j < |xs| ==> xs[j] > t
    ensures Sum(xs) >= |xs| as real * t
    ensures |xs| > 0 ==> Sum(xs) > |xs| as real * t
  {
    if xs != [] {
      SumAbove(xs[1..], t);
    }
  }

  /** The mean of values all above `t` is above `t`. */
  lemma MeanAbove(xs: seq<real>, t: real)
    requires |xs| > 0
    requires forall j :: 0 <= j < |xs| ==> xs[j] > t
    ensures Mean(xs) > t
  {
    SumAbove(xs, t);
    var n := |xs| as real;
    assert Sum(xs) / n > t by {
      assert Sum(xs) > n * t;
    }
  }

  /** A segment carries the mean energy of its frames exactly when the
      configuration asks for it, and that mean is above the threshold. */
  lemma SegmentEnergyAboveThreshold(energy: seq<real>, cfg: Config)
    requires ValidConfig(cfg)
    ensures var segments := Segments(energy, cfg);
      forall k :: 0 <= k < |segments| ==>
        if cfg.withEnergy
        then segments[k].energy.Some? && segments[k].energy.value > Threshold(energy, cfg)
        else segments[k].energy == None
  {
    var runs := SpeechRuns(energy, cfg);
    var segments := Segments(energy, cfg);
    var flags := Flags(energy, Threshold(energy, cfg));
    SpeechRunsExact(energy, cfg);
    ToSegmentsAt(energy, runs, cfg);
    forall k | 0 <= k < |segments| && cfg.withEnergy
      ensures segments[k].energy.Some? && segments[k].energy.value > Threshold(energy, cfg)
    {
      var r := runs[k];
      assert r in runs;
      var part := energy[r.startFrame..r.endFrame];
      forall j | 0 <= j < |part| ensures part[j] > Threshold(energy, cfg) {
        assert flags[r.startFrame + j];
      }
      MeanAbove(part, Threshold(energy, cfg));
    }
  }

  // ---------------------------------------------------------------------------
  // No speech

  lemma {:induction false} NoFlagsNoRuns(flags: seq<bool>, i: int)
    requires 0 <= i <= |flags|
    requires forall j :: 0 <= j < |flags| ==> !flags[j]
    ensures Runs(flags, i) == []
    decreases |flags| - i
  {
    if i < |flags| {
      NoFlagsNoRuns(flags, i + 1);
    }
  }

  /** With no frame above the threshold, nothing is reported. */
  lemma NoFrameAboveThreshold(energy: seq<real>, cfg: Config)
    requires ValidConfig(cfg)
    requires forall j :: 0 <= j < |energy| ==> energy[j] <= Threshold(energy, cfg)
    ensures Segments(energy, cfg) == []
  {
    NoFlagsNoRuns(Flags(energy, Threshold(energy, cfg)), 0);
  }

  lemma {:induction false} SumOfZeros(xs: seq<real>)
    requires forall j :: 0 <= j < |xs| ==> xs[j] == 0.0
    ensures Sum(xs) == 0.0
  {
    if xs != [] {
      SumOfZeros(xs[1..]);
    }
  }

  /** An all-zero curve has threshold 0; since the test is strict, nothing is reported. */
  lemma SilenceHasNoSegments(energy: seq<real>, cfg: Config)
    requires ValidConfig(cfg)
    requires forall j :: 0 <= j < |energy| ==> energy[j] == 0.0
    ensures Threshold(energy, cfg) == 0.0
    ensures Segments(energy, cfg) == []
  {
    SumOfZeros(energy);
    NoFrameAboveThreshold(energy, cfg);
  }

  // ---------------------------------------------------------------------------
  // How much speech there can be

  lemma {:induction false} RunEndCount(flags: seq<bool>, i: int)
    requires 0 <= i <= |flags|
    ensures Count(flags[i..]) == (RunEnd(flags, i) - i) + Count(flags[RunEnd(flags, i)..])
    decreases |flags| - i
  {
    if i < |flags| && flags[i] {
      assert flags[i..][1..] == flags[i + 1..];
      RunEndCount(flags, i + 1);
    }
  }

  /** The collected runs cover exactly the flagged frames. */
  lemma {:induction false} RunsCoverFlagged(flags: seq<bool>, i: int)
    requires 0 <= i <= |flags|
    ensures Frames(Runs(flags, i)) == Count(flags[i..])
    decreases |flags| - i
  {
    if i == |flags| {
    } else if flags[i] {
      var e := RunEnd(flags, i);
      RunEndCount(flags, i);
      RunsCoverFlagged(flags, e);
      assert ([Run(i, e)] + Runs(flags, e))[1..] == Runs(flags, e);
    } else {
      assert flags[i..][1..] == flags[i + 1..];
      RunsCoverFlagged(flags, i + 1);
    }
  }

  lemma {:induction false} CountAtMostLength(flags: seq<bool>)
    ensures Count(flags) <= |flags|
  {
    if flags != [] {
      CountAtMostLength(flags[1..]);
    }
  }

  lemma {:induction false} KeptFrames(runs: seq<Run>, cfg: Config)
    requires ValidConfig(cfg)
    requires forall r :: r in runs ==> r.startFrame <= r.endFrame
    ensures 0 <= Frames(Kept(runs, cfg)) <= Frames(runs)
  {
    if runs != [] {
      var r, tail := runs[0], runs[1..];
      assert r in runs;
      assert forall q :: q in tail ==> q in runs;
      KeptFrames(tail, cfg);
      var kt := Kept(tail, cfg);
      if Long(r, cfg) {
        assert Kept(runs, cfg) == [r] + kt;
        assert ([r] + kt)[1..] == kt;
        assert Frames(Kept(runs, cfg)) == (r.endFrame - r.startFrame) + Frames(kt);
      } else {
        assert Kept(runs, cfg) == kt;
      }
    }
  }

  lemma {:induction false} TotalSpeechOfRuns(energy: seq<real>, runs: seq<Run>, cfg: Config)
    requires ValidConfig(cfg)
    requires WithinCurve(runs, |energy|)
    ensures TotalSpeech(ToSegments(energy, runs, cfg)) == FrameTime(Frames(runs), cfg)
  {
    if runs != [] {
      var r := runs[0];
      TotalSpeechOfRuns(energy, runs[1..], cfg);
      ToSegmentsCons(energy, r, runs[1..], cfg);
      assert [r] + runs[1..] == runs;
      assert ToSegments(energy, runs, cfg)[1..] == ToSegments(energy, runs[1..], cfg);
      FrameTimeLinear(r.endFrame - r.startFrame, Frames(runs[1..]), cfg);
    }
  }

  /** Speech never lasts longer than the frames of the curve: the reported
      durations add up to at most `|energy| * hopLength / sampleRate`. */
  lemma SpeechWithinCurve(energy: seq<real>, cfg: Config)
    requires ValidConfig(cfg)
    ensures 0.0 <= TotalSpeech(Segments(energy, cfg))
    ensures TotalSpeech(Segments(energy, cfg)) <= FrameTime(Count(Flags(energy, Threshold(energy, cfg))), cfg)
    ensures TotalSpeech(Segments(energy, cfg)) <= FrameTime(|energy|, cfg)
  {
    hide ToSegments, Kept, Runs, Flags, Count, Mean, Sum, RunEnd, FrameTime, TotalSpeech, Frames;
    var flags := Flags(energy, Threshold(energy, cfg));
    var all := Runs(flags, 0);
    var runs := SpeechRuns(energy, cfg);
    RunsCoverFlagged(flags, 0);
    assert flags[0..] == flags;
    KeptFrames(all, cfg);
    CountAtMostLength(flags);
    TotalSpeechOfRuns(energy, runs, cfg);
    FrameTimeLinear(0, Frames(runs), cfg);
    FrameTimeLinear(Frames(runs), Count(flags), cfg);
    FrameTimeLinear(Count(flags), |energy|, cfg);
  }

  lemma {:induction false} SumNonNegative(xs: seq<real>)
    requires NonNegative(xs)
    ensures Sum(xs) >= 0.0
  {
    if xs != [] {
      SumNonNegative(xs[1..]);
    }
  }

  /** Markov's inequality on frames: with non-negative energy, `count * t` is at
      most the total energy of the curve, and strictly less once a frame is flagged. */
  lemma {:induction false} FlaggedEnergy(xs: seq<real>, t: real)
    requires NonNegative(xs)
    ensures Count(Flags(xs, t)) as real * t <= Sum(xs)
    ensures Count(Flags(xs, t)) > 0 ==> Count(Flags(xs, t)) as real * t < Sum(xs)
  {
    CountFlags(xs, t);
    hide Count, Flags;
    if xs != [] {
      var tail := xs[1..];
      FlaggedEnergy(tail, t);
      MarkovStep(Count(Flags(tail, t)) as real, t, xs[0], Sum(tail), Count(Flags(xs, t)) as real, Sum(xs));
    }
  }

  /** Counting the flags one frame at a time. */
  lemma CountFlags(xs: seq<real>, t: real)
    ensures xs == [] ==> Count(Flags(xs, t)) == 0
    ensures xs != [] ==> Count(Flags(xs, t)) == (if xs[0] > t then 1 else 0) + Count(Flags(xs[1..], t))
  {
    if xs != [] {
      assert Flags(xs, t)[1..] == Flags(xs[1..], t);
    } else {
      assert Flags(xs, t) == [];
    }
  }

  /** One frame of the Markov bound: `x` joins a curve whose `c` flagged frames
      carry at least `c * t` of its energy `rest`. */
  lemma MarkovStep(c: real, t: real, x: real, rest: real, c': real, total: real)
    requires x >= 0.0 && c * t <= rest && (c > 0.0 ==> c * t < rest)
    requires c' == (if x > t then c + 1.0 else c) && total == x + rest
    ensures c' * t <= total
    ensures c' > 0.0 ==> c' * t < total
  {
    if x > t {
      assert c' * t == c * t + t;
    }
  }

  lemma ShareArithmetic(c: real, k: real, sum: real, n: real)
    requires c > 0.0 && k > 0.0 && n > 0.0 && sum >= 0.0
    requires c * (sum / n * k) < sum
    ensures c * k < n
  {
    var m := sum / n;
    assert sum == m * n;
    assert m >= 0.0;
    assert m != 0.0;
    assert (c * k) * m < n * m;
    assert c * k == ((c * k) * m) / m && n == (n * m) / m;
  }

  /** With non-negative energy at most `|energy| / multiplier` frames exceed
      `mean * multiplier`. */
  lemma FlaggedShare(energy: seq<real>, t: real, k: real)
    requires NonNegative(energy)
    requires t == Mean(energy) * k
    ensures Count(Flags(energy, t)) as real * k <= |energy| as real
  {
    var c := Count(Flags(energy, t)) as real;
    if energy != [] && k > 0.0 && c > 0.0 {
      FlaggedEnergy(energy, t);
      SumNonNegative(energy);
      ShareArithmetic(c, k, Sum(energy), |energy| as real);
    }
  }

  lemma FrameTimeScale(frame: int, cfg: Config)
    requires ValidConfig(cfg)
    ensures FrameTime(frame, cfg) == frame as real * FrameTime(1, cfg)
  {
  }

  /** Scaling a frame count into seconds: if `c * k <= n` then the time of `c`
      frames, times `k`, is at most the time of `n` frames. */
  lemma ScaledFrames(c: nat, n: nat, k: real, cfg: Config)
    requires ValidConfig(cfg) && k > 0.0
    requires c as real * k <= n as real
    ensures FrameTime(c, cfg) * k <= FrameTime(n, cfg)
  {
    var step := FrameTime(1, cfg);
    FrameTimeScale(c, cfg);
    FrameTimeScale(n, cfg);
    assert step > 0.0;
    assert (c as real * k) * step <= n as real * step;
  }

  /** With non-negative energy, the flagged frames, scaled by the multiplier, fit
      in the span of the curve. */
  lemma FlaggedSpan(energy: seq<real>, cfg: Config)
    requires ValidConfig(cfg) && cfg.multiplier > 0.0
    requires NonNegative(energy)
    ensures FrameTime(Count(Flags(energy, Threshold(energy, cfg))), cfg) * cfg.multiplier
            <= FrameTime(|energy|, cfg)
  {
    FlaggedShare(energy, Threshold(energy, cfg), cfg.multiplier);
    ScaledFrames(Count(Flags(energy, Threshold(energy, cfg))), |energy|, cfg.multiplier, cfg);
  }

  lemma ScaledChain(total: real, flagged: real, span: real, k: real)
    requires 0.0 <= total <= flagged && 0.0 <= span
    requires k > 0.0 ==> flagged * k <= span
    ensures total * k <= span
  {
    if k > 0.0 {
      assert total * k <= flagged * k;
    }
  }

  /** With non-negative energy the reported speech, scaled by the multiplier, fits
      in the curve's span: `total * multiplier <= |energy| * hopLength / sampleRate`. */
  lemma SpeechShareBound(energy: seq<real>, cfg: Config)
    requires ValidConfig(cfg)
    requires NonNegative(energy)
    ensures TotalSpeech(Segments(energy, cfg)) * cfg.multiplier <= FrameTime(|energy|, cfg)
  {
    hide *;
    SpeechWithinCurve(energy, cfg);
    FrameTimeLinear(0, |energy|, cfg);
    if cfg.multiplier > 0.0 {
      FlaggedSpan(energy, cfg);
    }
    ScaledChain(TotalSpeech(Segments(energy, cfg)),
                FrameTime(Count(Flags(energy, Threshold(energy, cfg))), cfg),
                FrameTime(|energy|, cfg), cfg.multiplier);
  }

  /** A share bound turns into a percentage bound. */
  lemma PercentArithmetic(total: real, span: real, k: real, duration: real)
    requires k > 0.0 && duration >= 0.0
    requires 0.0 <= total && total * k <= span <= k * duration
    ensures 0.0 <= SpeechPercentage(total, duration) <= 100.0
  {
    if duration > 0.0 {
      assert total * k <= duration * k;
      assert total <= duration;
      assert total / duration <= 1.0;
    }
  }

  /** The unclamped percentage lies in [0, 100] whenever the curve's span is at
      most `multiplier` times the recording's duration. */
  lemma PercentageAtMost100(energy: seq<real>, cfg: Config, duration: real)
    requires ValidConfig(cfg)
    requires NonNegative(energy)
    requires cfg.multiplier > 0.0 && duration >= 0.0
    requires FrameTime(|energy|, cfg) <= cfg.multiplier * duration
    ensures 0.0 <= SpeechPercentage(TotalSpeech(Segments(energy, cfg)), duration) <= 100.0
  {
    hide *;
    SpeechWithinCurve(energy, cfg);
    SpeechShareBound(energy, cfg);
    PercentArithmetic(TotalSpeech(Segments(energy, cfg)), FrameTime(|energy|, cfg), cfg.multiplier, duration);
  }

  // ---------------------------------------------------------------------------
  // Curves too short to hold a segment

  /** No run of a curve that lasts at most the minimum duration is kept. */
  lemma ShortRunsNotKept(energy: seq<real>, cfg: Config)
    requires ValidConfig(cfg)
    requires FrameTime(|energy|, cfg) <= cfg.minDuration
    ensures SpeechRuns(energy, cfg) == []
  {
    var flags := Flags(energy, Threshold(energy, cfg));
    var all := Runs(flags, 0);
    KeptMembers(all, cfg);
    if SpeechRuns(energy, cfg) != [] {
      var r := SpeechRuns(energy, cfg)[0];
      assert r in SpeechRuns(energy, cfg);
      FrameTimeLinear(r.endFrame - r.startFrame, |energy|, cfg);
    }
  }

  /** A curve whose whole span does not exceed the minimum duration yields no segment. */
  lemma ShortCurveNoSegments(energy: seq<real>, cfg: Config)
    requires ValidConfig(cfg)
    requires FrameTime(|energy|, cfg) <= cfg.minDuration
    ensures Segments(energy, cfg) == []
  {
    ShortRunsNotKept(energy, cfg);
  }

  /** A curve of at most one non-negative frame never has that frame above
      `mean * k` once `k >= 1`: the frame is the mean. */
  lemma SingleFrameNotAbove(energy: seq<real>, cfg: Config)
    requires NonNegative(energy) && |energy| <= 1 && cfg.multiplier >= 1.0
    ensures forall j :: 0 <= j < |energy| ==> energy[j] <= Threshold(energy, cfg)
  {
    if |energy| == 1 {
      var x := energy[0];
      assert Sum(energy) == x;
      assert Mean(energy) == x;
      assert x <= x * cfg.multiplier by {
        assert x * cfg.multiplier - x == x * (cfg.multiplier - 1.0);
      }
    }
  }

  /** A recording shorter than one hop has a curve of at most one frame, and
      that frame is not above the threshold. */
  lemma ShortRecordingNoSegments(energy: seq<real>, cfg: Config, sampleCount: nat)
    requires ValidConfig(cfg)
    requires NonNegative(energy) && cfg.multiplier >= 1.0
    requires sampleCount < cfg.hopLength && |energy| <= 1 + sampleCount / cfg.hopLength
    ensures Segments(energy, cfg) == []
  {
    assert sampleCount / cfg.hopLength == 0;
    SingleFrameNotAbove(energy, cfg);
    NoFrameAboveThreshold(energy, cfg);
  }

  lemma FramedSamples(n: nat, sampleCount: nat, hop: int)
    requires hop > 0 && sampleCount >= hop && n <= 1 + sampleCount / hop
    ensures n * hop <= 2 * sampleCount
  {
    var q := sampleCount / hop;
    assert q * hop + sampleCount % hop == sampleCount;
    MultiplyMonotone(n, 1 + q, hop);
    assert (1 + q) * hop == hop + q * hop;
  }

  lemma MultiplyMonotone(a: int, b: int, c: int)
    requires a <= b && c > 0
    ensures a * c <= b * c
  {
    assert b * c - a * c == (b - a) * c;
  }

  lemma ScaledSeconds(x: real, l: real, sr: real, k: real)
    requires sr > 0.0 && k >= 2.0 && 0.0 <= x <= 2.0 * l
    ensures x / sr <= k * (l / sr)
  {
    assert 2.0 * l <= k * l by {
      assert k * l - 2.0 * l == (k - 2.0) * l;
    }
    DivideMonotone(x, k * l, sr);
    assert (k * l) / sr == k * (l / sr);
  }

  lemma DivideMonotone(p: real, q: real, d: real)
    requires d > 0.0 && p <= q
    ensures p / d <= q / d
  {
    assert q / d - p / d == (q - p) / d;
  }

  /** Frame counts in the centred framing convention (one frame per hop plus
      one) fit in `k >= 2` times the recording once it lasts at least one hop. */
  lemma FramingArithmetic(n: nat, sampleCount: nat, hop: int, sr: int, k: real)
    requires hop > 0 && sr > 0 && k >= 2.0
    requires sampleCount >= hop && n <= 1 + sampleCount / hop
    ensures n as real * hop as real / sr as real <= k * (sampleCount as real / sr as real)
  {
    FramedSamples(n, sampleCount, hop);
    assert n as real * hop as real == (n * hop) as real;
    ScaledSeconds(n as real * hop as real, sampleCount as real, sr as real, k);
  }

  /** With non-negative energy, a curve of at most `1 + sampleCount / hopLength`
      frames (centred framing of `sampleCount` samples) and a multiplier of at
      least 2, the unclamped speech percentage never exceeds 100. */
  lemma FramedPercentageAtMost100(energy: seq<real>, cfg: Config, sampleCount: nat)
    requires ValidConfig(cfg)
    requires NonNegative(energy)
    requires cfg.multiplier >= 2.0
    requires |energy| <= 1 + sampleCount / cfg.hopLength
    ensures 0.0 <= SpeechPercentage(TotalSpeech(Segments(energy, cfg)), AudioDuration(sampleCount, cfg.sampleRate)) <= 100.0
  {
    hide Segments, SpeechRuns, ToSegments, Kept, Runs, Flags, Threshold, Mean, Sum;
    var duration := AudioDuration(sampleCount, cfg.sampleRate);
    if sampleCount < cfg.hopLength {
      ShortRecordingNoSegments(energy, cfg, sampleCount);
    } else {
      FramingArithmetic(|energy|, sampleCount, cfg.hopLength, cfg.sampleRate, cfg.multiplier);
      PercentageAtMost100(energy, cfg, duration);
    }
  }
}
