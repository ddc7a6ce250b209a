# Voice Separator Pro: energy-based speech segmentation

Voice Separator Pro runs two HTTP servers. One is a notebook server with a GPU
separator (`backend/colab_model.py`). The other is a CPU server (`fastapi_server.py`).
After separating or cleaning the audio, both look for speech in the same way:

1. They take the RMS energy curve of the audio: one value per hop of 512 samples
   at 22050 Hz.
2. They flag every frame whose energy is strictly above `mean(energy) * k`.
3. A nested `while` loop collects the maximal runs of flagged frames as
   half-open frame ranges `[start, end)`.
4. Frame indices become seconds as `frame * 512 / 22050`.
5. Only runs lasting strictly longer than a minimum duration are reported.

The two servers differ only in their constants and in what they report:

- The notebook server uses `k = 3.0` and a 0.15 s minimum. Every segment carries the
  mean energy of its frames. The handler reports the total speech and an unclamped
  speech percentage.
- The CPU server uses `k = 2.5` and a 0.2 s minimum, with no energy entry. It clamps
  the percentage to at most 100 and lists only the first ten segments, while the
  total covers all of them.
- The CPU server's download route serves `clean_audio.wav` and nothing else.

The project has three modules:

- `Segmentation` (`segmentation.dfy`) holds the shared routine.
  - `DetectSegments` is the imperative nested scan. Its `while` loops carry their
    invariants, and the method is proved equal to the specification `Segments`.
  - `Segments` composes four pure steps. `Flags` flags the frames and `Runs` collects
    the runs. `Kept` applies the strict minimum-duration test and `ToSegments` builds
    the records.
  - The lemmas relate this pipeline to a declarative reference. `IsMaximalRun` states
    what a maximal run is, and `Ordered` states that runs come left to right with gaps.
  - `TotalSpeech`, `AudioDuration` and `SpeechPercentage` are the summary arithmetic
    both handlers share.
- `ColabModel` (`colab_model.dfy`) instantiates the routine with the notebook
  server's constants, for `separate_vocals` and its handler's summary.
- `FastapiServer` (`fastapi_server.dfy`) instantiates it with the CPU server's
  constants. It adds the report with the clamp and the ten-segment prefix, and the
  download check.

The notebook server's percentage is not clamped. The lemma
`Segmentation.FramedPercentageAtMost100` shows that it still stays in [0, 100]. This
needs three things:

- the energy is non-negative, as RMS values are;
- the curve has at most `1 + samples / 512` frames, which is the centred framing of
  the RMS routine;
- the multiplier is at least 2.

The proof uses Markov's inequality. Frames above `k` times the mean make up less than
a `1/k` share of the curve, so the speech lasts at most `1/k` of the curve's span.
The CPU server meets the same conditions, so `FastapiServer.ClampInactive` shows that
its clamp never changes the value. A percentage capped at 100 is the intended
behaviour of both servers. The notebook server's code has no clamp, so the model
follows the code and proves the bound as a theorem instead.

## Model

| member | source | states |
|---|---|---|
| Segmentation.Mean | voice-separator-pro/backend/colab_model.py:78 | `np.mean` of the curve (and, at line 94, of a run's slice): for a non-empty sequence the mean times the length is the sum |
| Segmentation.Flags | voice-separator-pro/backend/colab_model.py:79 | one speech flag per frame; the per-frame test `energy > threshold` is the definition (see "## Left out") |
| Segmentation.Threshold | voice-separator-pro/backend/colab_model.py:78 | the threshold of one call is `mean * k`, and it is never negative for a non-negative curve and multiplier |
| Segmentation.FrameTime | voice-separator-pro/backend/colab_model.py:88-92 | a frame index becomes `frame * hop / sr` seconds: exactly 0 at frame 0 and positive exactly for positive frames |
| Segmentation.Long | voice-separator-pro/backend/colab_model.py:88-89 | the strict minimum-duration test; with a non-negative minimum only a non-empty run passes it |
| Segmentation.SegmentOf | voice-separator-pro/backend/colab_model.py:90-95 | the record of one run has `0 <= start <= end`, `duration == end - start`, and carries an energy exactly when configured to |
| Segmentation.Segments | voice-separator-pro/backend/colab_model.py:78-97 | the specification of the routine; a curve of `n` frames yields at most `(n + 1) / 2` segments, because neighbours are at least one frame apart |
| Segmentation.RunsAtMostHalf | voice-separator-pro/backend/colab_model.py:82-97 | from frame `i` on the scan collects at most `(n - i + 1) / 2` runs, because each run is followed by an unflagged frame |
| Segmentation.WholeCurveOneSegment | voice-separator-pro/backend/colab_model.py:78-97 | when every frame is above the threshold, the result is one segment spanning the whole curve if that lasts longer than the minimum, and no segment otherwise |
| Segmentation.TotalSpeech | voice-separator-pro/backend/colab_model.py:141 | the sum of the durations, non-negative when every duration is |
| Segmentation.DetectSegments | voice-separator-pro/backend/colab_model.py:78-97 | the nested scan returns exactly the specified segment list `Segments(energy, cfg)`; it terminates because every outer iteration advances `i` |
| Segmentation.RunEnd | voice-separator-pro/backend/colab_model.py:85-87 | the inner loop stops at the first unflagged frame at or after `i`, or at the end, and every frame it passes is flagged |
| Segmentation.Runs | voice-separator-pro/backend/colab_model.py:82-87 | each collected range is non-empty, lies inside the curve and starts at or after the scan position |
| Segmentation.RunsSound | voice-separator-pro/backend/colab_model.py:82-87 | every collected range is flagged throughout, ends at an unflagged frame or the end of the curve, and starts at the scan position or right after an unflagged frame |
| Segmentation.RunsOrdered | voice-separator-pro/backend/colab_model.py:82-97 | collected ranges come in strictly increasing order and each ends strictly before the next starts |
| Segmentation.RunsComplete | voice-separator-pro/backend/colab_model.py:82-97 | every flagged frame lies inside some collected range |
| Segmentation.MaximalRunsUnique | voice-separator-pro/backend/colab_model.py:83-87 | two maximal runs that share a frame are the same run |
| Segmentation.RunsExact | voice-separator-pro/backend/colab_model.py:79-87 | a range is collected if and only if it is a maximal run of flagged frames, and the collection is ordered |
| Segmentation.WholeCurveOneRun | voice-separator-pro/backend/colab_model.py:83-87 | when every frame is flagged the scan collects the single range covering the whole curve |
| Segmentation.Kept | voice-separator-pro/backend/colab_model.py:88-89 | the minimum-duration filter never lengthens the list |
| Segmentation.KeptMembers | voice-separator-pro/backend/colab_model.py:88-89 | a range survives the filter if and only if it was collected and its duration is strictly above the minimum |
| Segmentation.KeptOrdered | voice-separator-pro/backend/colab_model.py:82-97 | filtering keeps the left-to-right order and the gaps |
| Segmentation.SpeechRuns | voice-separator-pro/backend/colab_model.py:78-89 | the reported ranges lie inside the curve |
| Segmentation.SpeechRunsExact | voice-separator-pro/backend/colab_model.py:78-89 | the reported ranges are exactly the maximal runs of frames strictly above `mean * k` that last longer than the minimum, in increasing order with gaps |
| Segmentation.ToSegments | voice-separator-pro/backend/colab_model.py:90-95 | one segment record per kept range |
| Segmentation.ToSegmentsAt | voice-separator-pro/backend/colab_model.py:90-95 | the k-th record holds the k-th range's start and end times (`frame * hop / sr`), its duration and, when configured, the mean energy of its frames |
| Segmentation.ScanIsPipeline | voice-separator-pro/backend/colab_model.py:82-97 | the loop's step-by-step form from any frame equals collecting, filtering and converting the remaining ranges |
| Segmentation.ScanIsSegments | voice-separator-pro/backend/colab_model.py:78-97 | the loop's form from frame 0 over the flags of `mean * k` is the reported list |
| Segmentation.FrameTimeLinear | voice-separator-pro/backend/colab_model.py:88-92 | frame-to-seconds conversion is additive and strictly increasing, so `end - start` seconds is the seconds of `end_frame - start_frame` |
| Segmentation.SegmentOfLongRun | voice-separator-pro/backend/colab_model.py:88-93 | the record of a kept range has `0 <= start < end`, `duration == end - start` and duration above the minimum |
| Segmentation.SegmentsChronological | voice-separator-pro/backend/colab_model.py:82-95 | every reported segment has `0 <= start < end`, `duration == end - start` exceeding the minimum, and each segment ends strictly before the next starts |
| Segmentation.MeanAbove | voice-separator-pro/backend/colab_model.py:94 | the mean of a non-empty slice whose values all exceed `t` exceeds `t` |
| Segmentation.SegmentEnergyAboveThreshold | voice-separator-pro/backend/colab_model.py:78-94 | a segment carries an energy exactly when the configuration asks for it, and that mean energy is strictly above the threshold |
| Segmentation.NoFlagsNoRuns | voice-separator-pro/backend/colab_model.py:82-97 | with no flagged frame the scan collects nothing |
| Segmentation.NoFrameAboveThreshold | voice-separator-pro/backend/colab_model.py:78-83 | if no frame is strictly above the threshold, the segment list is empty |
| Segmentation.SilenceHasNoSegments | voice-separator-pro/backend/colab_model.py:78-83 | an all-zero curve has threshold 0 and, since the test is strict, no segments |
| Segmentation.RunEndCount | voice-separator-pro/backend/colab_model.py:85-87 | the frames the inner loop passes are all counted as flagged |
| Segmentation.RunsCoverFlagged | voice-separator-pro/backend/colab_model.py:82-87 | the collected ranges cover as many frames as there are flagged frames |
| Segmentation.KeptFrames | voice-separator-pro/backend/colab_model.py:88-89 | filtering never adds frames |
| Segmentation.TotalSpeechOfRuns | voice-separator-pro/backend/colab_model.py:141 | the sum of the durations equals the time of all frames in the kept ranges |
| Segmentation.SpeechWithinCurve | voice-separator-pro/backend/colab_model.py:141 | total speech is non-negative and at most the time of the flagged frames, hence at most the span of the curve |
| Segmentation.FlaggedEnergy | voice-separator-pro/backend/colab_model.py:78-79 | with non-negative energy, the number of frames above `t` times `t` is at most the total energy, strictly once a frame is flagged |
| Segmentation.FlaggedShare | voice-separator-pro/backend/colab_model.py:78-79 | with non-negative energy, the number of frames above `mean * k` times `k` is at most the number `n` of frames, so at most `n / k` frames are flagged |
| Segmentation.ScaledFrames | voice-separator-pro/backend/colab_model.py:88 | `c * k <= n` frames carries over to seconds |
| Segmentation.FlaggedSpan | voice-separator-pro/backend/colab_model.py:78-88 | the time of the flagged frames times `k` is at most the span of the curve |
| Segmentation.SpeechShareBound | voice-separator-pro/backend/colab_model.py:141 | total speech times `k` is at most the span of the curve |
| Segmentation.PercentageAtMost100 | voice-separator-pro/backend/colab_model.py:142 | the unclamped percentage lies in [0, 100] when the curve's span is at most `k` times the recording's duration |
| Segmentation.ShortRunsNotKept | voice-separator-pro/backend/colab_model.py:88-89 | a curve lasting at most the minimum duration keeps no range |
| Segmentation.ShortCurveNoSegments | voice-separator-pro/backend/colab_model.py:88-89 | a curve lasting at most the minimum duration yields no segment |
| Segmentation.SingleFrameNotAbove | voice-separator-pro/backend/colab_model.py:78-79 | a curve of at most one non-negative frame has no frame above `mean * k` once `k >= 1` |
| Segmentation.ShortRecordingNoSegments | voice-separator-pro/backend/colab_model.py:78-83 | a recording shorter than one hop, framed centred, yields no segment for non-negative energy and `k >= 1` |
| Segmentation.FramedPercentageAtMost100 | voice-separator-pro/backend/colab_model.py:142 | with non-negative energy, centred framing and `k >= 2`, the unclamped percentage lies in [0, 100] |
| Segmentation.AudioDuration | voice-separator-pro/backend/colab_model.py:48 | the duration is non-negative and duration times the sample rate is the sample count |
| Segmentation.SpeechPercentage | voice-separator-pro/backend/colab_model.py:142 | percentage times duration is 100 times the total speech when the duration is positive; otherwise 0; never negative for a non-negative total |
| ColabModel.SeparateVocals | voice-separator-pro/backend/colab_model.py:45-99 | returns the segments of the curve under `k = 3.0` and 0.15 s with mean energy attached, the rate 22050, and the duration with `duration * 22050 == samples` |
| ColabModel.Summarize | voice-separator-pro/backend/colab_model.py:141-142 | speech duration is the sum of the durations; the percentage times the duration is 100 times that sum when the duration is positive, else 0; no clamp |
| ColabModel.KeptIffSevenFrames | voice-separator-pro/backend/colab_model.py:88-89 | a run passes the 0.15 s test if and only if it has at least 7 frames |
| ColabModel.SegmentsOfSeparation | voice-separator-pro/backend/colab_model.py:78-95 | the segments are exactly the maximal runs above `mean * 3.0` of at least 7 frames; each has `duration == end - start > 0.15` and a mean energy above `mean * 3.0`; they are chronological with gaps |
| ColabModel.PercentageInRange | voice-separator-pro/backend/colab_model.py:141-142 | with non-negative energy and centred framing, the unclamped percentage lies in [0, 100] |
| FastapiServer.SeparateAudio | voice-separator-pro/fastapi_server.py:52-119 | the report is built from all segments of the curve under `k = 2.5` and 0.2 s without energy, and the duration `samples / 22050` |
| FastapiServer.FirstSegments | voice-separator-pro/fastapi_server.py:117 | the listed segments are a prefix of the computed ones, at most ten, all of them when there are at most ten, otherwise exactly ten |
| FastapiServer.ClampedPercentage | voice-separator-pro/fastapi_server.py:106-116 | never above 100; equal to the raw percentage when that is at most 100 and to 100 otherwise; non-negative for a non-negative total; 0 for a zero duration |
| FastapiServer.BuildReport | voice-separator-pro/fastapi_server.py:105-118 | the response carries the request's file name and the duration; the speech duration is the total of all segments; the percentage is the clamped percentage of that total, so at most 100; the listed segments are `FirstSegments` of all segments, a prefix of at most ten; the clean file name is reported |
| FastapiServer.DownloadFile | voice-separator-pro/fastapi_server.py:128-137 | the file is served if and only if the name is `clean_audio.wav` and the file exists, from `/tmp/clean_audio.wav` as `audio/wav`; otherwise the answer is 404 |
| FastapiServer.KeptIffNineFrames | voice-separator-pro/fastapi_server.py:95-96 | a run passes the 0.2 s test if and only if it has at least 9 frames |
| FastapiServer.SegmentsOfReport | voice-separator-pro/fastapi_server.py:83-101 | the segments are exactly the maximal runs above `mean * 2.5` of at least 9 frames; each has `duration == end - start > 0.2` and no energy entry; they are chronological with gaps |
| FastapiServer.PrefixTotal | voice-separator-pro/fastapi_server.py:117 | with non-negative durations a prefix totals at most the whole list |
| FastapiServer.ReportTotals | voice-separator-pro/fastapi_server.py:105-117 | the reported speech duration is at least the total of the listed segments, the percentage lies in [0, 100], and it is 0 for an empty recording |
| FastapiServer.ClampInactive | voice-separator-pro/fastapi_server.py:106-116 | with non-negative energy and centred framing, the clamp returns the raw percentage unchanged |

## Left out

- Demucs loading and separation, torch devices and the summing of background stems are
  not modelled. They are foreign neural-network calls. The model supposes the separator
  call returns. `colab_model.py:11` imports `apply` from `demucs`, and `demucs.apply`
  is most likely the package's submodule rather than a function. If so, the call at
  `colab_model.py:60` raises before the segmentation runs, and the handler answers 500.
- The RMS computation is not modelled. The energy curve is an input sequence of reals,
  and lemmas that need it ask for non-negative values. The curve length and the sample
  count are independent inputs. Only the percentage bounds tie them together, through
  the centred-framing precondition.
- Audio loading is not modelled: decoding, the pydub fallback, stereo downmix, the
  `/ 32768` scaling, resampling, peak normalisation with `1e-8` and noise reduction.
  The model keeps only the sample count and uses the code's rate constant of 22050 Hz.
  The `librosa.load` path resamples to that rate. The CPU server's pydub fallback
  (`fastapi_server.py:56-63`) does not resample: it only sets `sr = 22050`, so on that
  path the samples are not at 22050 Hz, and durations and times are off by the ratio
  of the true rate to 22050.
- Floats are exact reals, and `round(..., 2)` is not applied. Both servers add up the
  rounded durations, so the model's totals are the totals before rounding.
- The upload bytes, the temporary-file paths built from the upload name
  (`colab_model.py:136-137`), `sf.write`, the exception-to-500 mapping, FastAPI routing,
  CORS, ngrok and uvicorn are not modelled. They are I/O and transport. The upload name
  itself is modelled where the CPU server reports it.
- Segmentation.Mean: `np.mean` of an empty curve is NaN, but the model uses 0. The
  value is never used, because an empty curve has no frames to flag.
- Segmentation.Flags: the contract states only the length. The per-frame test
  `energy > threshold` is the function's definition, and the lemmas about runs work
  from it.
- The notebook server's own download route (`colab_model.py:162-167`) is not modelled.
  The frontend is not modelled either.
