/** The notebook (GPU) server: `VoiceSeparator.separate_vocals` and the speech
    summary of its `/api/separate` handler.

    The energy curve is the RMS curve of the separated vocals (512-sample hop at
    22050 Hz); the curve itself and the sample count of the loaded recording are
    inputs.  Frames above three times the mean energy are speech, runs lasting
    longer than 0.15 s are reported, each with the mean energy of its frames.
 */
module ColabModel {
  import opened Segmentation

  const HopLength: int := 512
  const SampleRate: int := 22050

  /** Threshold `mean * 3.0`, minimum duration 0.15 s, mean energy attached. */
  const Vad: Config := Config(HopLength, SampleRate, 3.0, 0.15, true)

  /** What `separate_vocals` hands back, without the two audio stems. */
  datatype Separation = Separation(segments: seq<Segment>, sampleRate: int, duration: real)

  /** The summary the handler adds to the segments. */
  datatype Summary = Summary(speechDuration: real, speechPercentage: real)

  /** `separate_vocals`: duration of the loaded recording, then the segmentation
      loop over the energy curve of the vocals. */
  method SeparateVocals(energy: seq<real>, sampleCount: nat) returns (result: Separation)
    ensures result.segments == Segments(energy, Vad)
    ensures result.sampleRate == SampleRate
    ensures result.duration * SampleRate as real == sampleCount as real
  {
    var sr := SampleRate;
    var duration := AudioDuration(sampleCount, sr);
    var segments := DetectSegments(energy, Vad);
    result := Separation(segments, sr, duration);
  }

  /** Total speech is the sum of the reported durations; the percentage is not
      clamped. */
  function Summarize(segments: seq<Segment>, duration: real): (summary: Summary)
    ensures summary.speechDuration == TotalSpeech(segments)
    ensures duration > 0.0 ==> summary.speechPercentage * duration == summary.speechDuration * 100.0
    ensures duration <= 0.0 ==> summary.speechPercentage == 0.0
  {
    var total := TotalSpeech(segments);
    Summary(total, SpeechPercentage(total, duration))
  }

  /** A run is kept exactly when it has at least 7 frames:
      6 * 512 / 22050 <= 0.15 < 7 * 512 / 22050. */
  lemma KeptIffSevenFrames(r: Run)
    ensures Long(r, Vad) <==> r.endFrame - r.startFrame >= 7
  {
    var n := r.endFrame - r.startFrame;
    if n >= 7 {
      FrameTimeLinear(7, n, Vad);
    } else {
      FrameTimeLinear(n, 6, Vad);
    }
  }

  /** Every reported segment covers at least 7 frames that are all above three
      times the mean, bounded by non-speech frames, lasts `end - start > 0.15`
      seconds, follows the previous one with a gap, and carries a mean energy
      above the threshold. */
  lemma SegmentsOfSeparation(energy: seq<real>)
    ensures forall r :: r in SpeechRuns(energy, Vad) <==>
              IsMaximalRun(Flags(energy, Threshold(energy, Vad)), r) && r.endFrame - r.startFrame >= 7
    ensures var segments := Segments(energy, Vad);
      && (forall k :: 0 <= k < |segments| ==>
            && segments[k].duration == segments[k].end - segments[k].start
            && segments[k].duration > 0.15
            && segments[k].energy.Some?
            && segments[k].energy.value > Mean(energy) * 3.0)
      && (forall j, k :: 0 <= j < k < |segments| ==> segments[j].end < segments[k].start)
  {
    SpeechRunsExact(energy, Vad);
    forall r {
      KeptIffSevenFrames(r);
    }
    SegmentsChronological(energy, Vad);
    SegmentEnergyAboveThreshold(energy, Vad);
  }

  /** With non-negative energy and the centred framing of the RMS curve (at most
      `1 + sampleCount / 512` frames), the unclamped percentage stays in [0, 100]. */
  lemma PercentageInRange(energy: seq<real>, sampleCount: nat)
    requires NonNegative(energy)
    requires |energy| <= 1 + sampleCount / HopLength
    ensures var duration := AudioDuration(sampleCount, SampleRate);
      0.0 <= Summarize(Segments(energy, Vad), duration).speechPercentage <= 100.0
  {
    FramedPercentageAtMost100(energy, Vad, sampleCount);
  }
}
