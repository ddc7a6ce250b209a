/** The CPU server: its `/api/separate` handler and its `/download/{filename}`
    route.

    The handler runs the same segmentation as the notebook server with its own
    constants (threshold `mean * 2.5`, minimum duration 0.2 s, no energy entry),
    then reports the total speech over all segments, the speech percentage
    clamped to at most 100, and only the first ten segments.  The energy curve
    and the sample count of the loaded recording are inputs.
 */
module FastapiServer {
  import opened Segmentation

  const HopLength: int := 512
  const SampleRate: int := 22050

  /** Threshold `mean * 2.5`, minimum duration 0.2 s, no energy entry. */
  const Vad: Config := Config(HopLength, SampleRate, 2.5, 0.2, false)

  /** The only file the download route serves, and where it lives. */
  const CleanFilename: string := "clean_audio.wav"
  const CleanPath: string := "/tmp/" + CleanFilename

  /** How many segments a response lists. */
  const ListedSegments: nat := 10

  /** The success response of `/api/separate`. */
  datatype Report = Report(
    filename: string,
    duration: real,
    speechDuration: real,
    speechPercentage: real,
    segments: seq<Segment>,
    cleanFile: string)

  /** The outcome of `/download/{filename}`. */
  datatype Download =
    | FileResponse(path: string, mediaType: string, filename: string)
    | NotFound(status: int, detail: string)

  /** The response lists a prefix of the segments: all of them when there are at
      most ten, otherwise the first ten. */
  function FirstSegments(segments: seq<Segment>): (listed: seq<Segment>)
    ensures listed <= segments
    ensures |listed| <= ListedSegments
    ensures |segments| <= ListedSegments ==> listed == segments
    ensures |segments| > ListedSegments ==> |listed| == ListedSegments
  {
    if |segments| <= ListedSegments then segments else segments[..ListedSegments]
  }

  /** `min(100.0, speech_pct)`: never above 100, equal to the raw percentage
      whenever that is at most 100. */
  function ClampedPercentage(totalSpeech: real, duration: real): (percentage: real)
    ensures percentage <= 100.0
    ensures SpeechPercentage(totalSpeech, duration) <= 100.0 ==> percentage == SpeechPercentage(totalSpeech, duration)
    ensures SpeechPercentage(totalSpeech, duration) > 100.0 ==> percentage == 100.0
    ensures totalSpeech >= 0.0 ==> percentage >= 0.0
    ensures duration <= 0.0 ==> percentage == 0.0
  {
    var raw := SpeechPercentage(totalSpeech, duration);
    if raw < 100.0 then raw else 100.0
  }

  /** The success response built from all computed segments: the total covers
      every segment, the list only the first ten, the percentage is clamped. */
  function BuildReport(filename: string, segments: seq<Segment>, duration: real): (report: Report)
    ensures report.filename == filename && report.duration == duration
    ensures report.speechDuration == TotalSpeech(segments)
    ensures report.speechPercentage == ClampedPercentage(TotalSpeech(segments), duration)
    ensures report.segments == FirstSegments(segments)
    ensures report.segments <= segments && |report.segments| <= ListedSegments
    ensures report.speechPercentage <= 100.0
    ensures report.cleanFile == CleanFilename
  {
    var total := TotalSpeech(segments);
    Report(filename, duration, total, ClampedPercentage(total, duration), FirstSegments(segments), CleanFilename)
  }

  /** `/api/separate`: duration of the loaded recording, segmentation of the
      cleaned audio's energy curve, then the summary of all segments. */
  method SeparateAudio(filename: string, energy: seq<real>, sampleCount: nat) returns (report: Report)
    ensures report == BuildReport(filename, Segments(energy, Vad), AudioDuration(sampleCount, SampleRate))
  {
    var sr := SampleRate;
    var duration := AudioDuration(sampleCount, sr);
    var segments := DetectSegments(energy, Vad);
    report := BuildReport(filename, segments, duration);
  }

  /** `/download/{filename}`: the clean file is served only under its own name
      and only once it exists; every other request is a 404. */
  function DownloadFile(filename: string, cleanFileExists: bool): (response: Download)
    ensures response.FileResponse? <==> filename == CleanFilename && cleanFileExists
    ensures response.FileResponse? ==>
              response.path == CleanPath && response.mediaType == "audio/wav" && response.filename == CleanFilename
    ensures response.NotFound? ==> response.status == 404
  {
    if filename != CleanFilename || !cleanFileExists then NotFound(404, "File not found")
    else FileResponse(CleanPath, "audio/wav", CleanFilename)
  }

  /** A run is kept exactly when it has at least 9 frames:
      8 * 512 / 22050 <= 0.2 < 9 * 512 / 22050. */
  lemma KeptIffNineFrames(r: Run)
    ensures Long(r, Vad) <==> r.endFrame - r.startFrame >= 9
  {
    var n := r.endFrame - r.startFrame;
    if n >= 9 {
      FrameTimeLinear(9, n, Vad);
    } else {
      FrameTimeLinear(n, 8, Vad);
    }
  }

  /** The segments behind a report are the maximal runs of frames above 2.5
      times the mean that have at least 9 frames; each lasts `end - start > 0.2`
      seconds, has no energy entry, and follows the previous one with a gap. */
  lemma SegmentsOfReport(energy: seq<real>)
    ensures forall r :: r in SpeechRuns(energy, Vad) <==>
              IsMaximalRun(Flags(energy, Threshold(energy, Vad)), r) && r.endFrame - r.startFrame >= 9
    ensures var segments := Segments(energy, Vad);
      && (forall k :: 0 <= k < |segments| ==>
            && segments[k].duration == segments[k].end - segments[k].start
            && segments[k].duration > 0.2
            && segments[k].energy == None)
      && (forall j, k :: 0 <= j < k < |segments| ==> segments[j].end < segments[k].start)
  {
    SpeechRunsExact(energy, Vad);
    forall r {
      KeptIffNineFrames(r);
    }
    SegmentsChronological(energy, Vad);
    SegmentEnergyAboveThreshold(energy, Vad);
  }

  /** Durations that are all non-negative add up to at least the total of any prefix. */
  lemma {:induction false} PrefixTotal(prefix: seq<Segment>, segments: seq<Segment>)
    requires prefix <= segments
    requires forall k :: 0 <= k < |segments| ==> segments[k].duration >= 0.0
    ensures TotalSpeech(prefix) <= TotalSpeech(segments)
  {
    if prefix == [] {
      assert NonNegativeDurations(segments);
    } else {
      assert prefix[0] == segments[0];
      PrefixTotal(prefix[1..], segments[1..]);
    }
  }

  /** The reported speech duration covers all segments, not just the listed ten,
      so it is at least the total of the listed ones; the percentage lies in
      [0, 100] and is 0 for an empty recording. */
  lemma ReportTotals(filename: string, energy: seq<real>, sampleCount: nat)
    ensures var report := BuildReport(filename, Segments(energy, Vad), AudioDuration(sampleCount, SampleRate));
      && TotalSpeech(report.segments) <= report.speechDuration
      && 0.0 <= report.speechPercentage <= 100.0
      && (sampleCount == 0 ==> report.speechPercentage == 0.0)
  {
    var segments := Segments(energy, Vad);
    SegmentsOfReport(energy);
    assert NonNegativeDurations(segments);
    PrefixTotal(FirstSegments(segments), segments);
  }

  /** With non-negative energy and the centred framing of the RMS curve (at most
      `1 + sampleCount / 512` frames), the raw percentage never exceeds 100, so
      the clamp leaves it unchanged. */
  lemma ClampInactive(energy: seq<real>, sampleCount: nat)
    requires NonNegative(energy)
    requires |energy| <= 1 + sampleCount / HopLength
    ensures var segments := Segments(energy, Vad);
      var duration := AudioDuration(sampleCount, SampleRate);
      ClampedPercentage(TotalSpeech(segments), duration) == SpeechPercentage(TotalSpeech(segments), duration)
  {
    FramedPercentageAtMost100(energy, Vad, sampleCount);
  }
}
