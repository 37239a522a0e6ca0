# video-ocr subtitle extraction, modelled in Dafny

The program extracts hard-coded subtitles from a video. `OCRWorker.run`
reads the frames and looks at every fifth one. It clamps the user's region
of interest to the frame and hands the crop to an OCR engine. It keeps the
detected lines whose confidence is strictly above the threshold, joins them
with spaces and strips the result. Consecutive samples showing the same text
are merged into one timed segment, and the open segment is flushed when the
stream ends. `write_srt` then drops segments shorter than 100 ms, numbers the
rest from 1 and writes them as SubRip blocks. Their timestamps come from
`ms_to_srt_time`. After each sample the worker also reports a remaining-time
estimate as `hh:mm:ss`.

Each piece is modelled in the form the program gives it. Pure formatting is
written as functions with lemmas. The loops (the detection filter, the frame
loop, the writer) are methods with loop invariants, and each is proved equal
to a functional specification. Properties are proved about those
specifications.

| file | module | what it models |
|---|---|---|
| `options.dfy` | `Options` | the `Option` type |
| `pytext.dfy` | `PyText` | the Python string operations the program relies on: `str(int)`, `%0Nd`, `str.isspace`, `strip`, `join`, `split` |
| `srt_time.dfy` | `SrtTime` | `ms_to_srt_time`, which goes through `datetime.timedelta` and `str()`, plus a reader for its output |
| `ocr_text.dfy` | `OcrText` | turning one sample's detections into its text |
| `sampling.dfy` | `Sampling` | which frames are sampled, and clamping the region of interest |
| `segments.dfy` | `Segments` | the segment state machine and its end-of-stream flush |
| `srt_writer.dfy` | `SrtWriter` | `write_srt` |
| `worker.dfy` | `Worker` | the frame loop of `run`, from frames to SubRip text |
| `progress.dfy` | `Progress` | the remaining-time estimate and its `hh:mm:ss` text |

Where the program's behaviour is unusual, the model follows the code:

- `ms_to_srt_time` prints the hours unpadded. It gives `0:00:01,500`, not the `00:00:01,500` its docstring promises (see "## Findings").
- From 24 hours on, `ms_to_srt_time` starts with `str(timedelta)`'s `"N day(s), "` prefix. Such a timestamp no longer reads back (`SrtTime.DayLongTimeUnreadable`). `SrtTime.SubRipTime` is the intended `HH:MM:SS,mmm` form; the writer keeps the code's timestamps, because those are what the file holds.
- When the clamped crop is empty, the sample produces no observation at all. The open segment is not closed; as far as the segment builder is concerned, it is as if the frame had not been sampled.
- A sampled frame still counts towards `processed_count` when its crop is empty.

Times are whole milliseconds (`nat`). The frame position that
`cv2.CAP_PROP_POS_MSEC` reports is an input to the model, one per frame.

## Model

| member | source | states |
|---|---|---|
| `SrtTime.TimedeltaFromMs` | main.py:24-25 | `timedelta(seconds=ms/1000)` is in normal form (seconds < 86400, microseconds < 10^6) and represents exactly `ms` milliseconds |
| `SrtTime.MsToSrtTimeShape` | main.py:22-32 | the full output is the clock text (any day prefix, unpadded hour of the day, `:MM:SS`), a comma, and the millisecond remainder padded to three digits; this covers both branches, split at `'.'` and `",000"` appended |
| `SrtTime.FractionDigits` | main.py:28-32 | the last four characters are `","` followed by `ms % 1000` in three digits; they are `",000"` exactly when `ms` is a whole number of seconds |
| `SrtTime.SrtTimeRoundTrip` | main.py:22-32 | below one day, reading the timestamp back gives the same milliseconds |
| `SrtTime.DayLongTimeUnreadable` | main.py:25-26 | from one day on, the `"N day(s), "` prefix makes the timestamp unreadable as `H:MM:SS,mmm` |
| `SrtTime.MidnightExample` | main.py:31-32 | 0 ms is `0:00:00,000` |
| `SrtTime.OneDigitHour` | main.py:22-32 | below ten hours the timestamp has 11 characters, `H:MM:SS,mmm`, one short of SubRip's `HH:MM:SS,mmm` |
| `SrtTime.SubRipTimeLayout` | main.py:23 | the intended timestamp has SubRip's 12 characters `HH:MM:SS,mmm` below 100 hours |
| `SrtTime.SubRipTimeRoundTrip` | main.py:23 | the intended timestamp reads back as the same milliseconds for every time, with hours counted past 24 |
| `SrtTime.HourMinuteSecondExample` | main.py:22-32 | 3661000 ms is `1:01:01,000`, with the hour unpadded |
| `PyText.NatToStringRoundTrip` | main.py:178 | the decimal text of a number reads back as that number |
| `PyText.NatToStringFits` | main.py:178 | a decimal text fits in `w` characters exactly when the number is below `10^w` |
| `PyText.ZeroPadRoundTrip` | main.py:26 | zero-padded digits (`%02d`, `%06d`) read back as the number |
| `PyText.ZeroPadWidth` | main.py:26 | a number below `10^w` pads to exactly `w` characters |
| `PyText.Strip` | main.py:107 | the result has no white space at either end, is empty exactly when the input is all white space, and is a contiguous slice of the input |
| `PyText.StripIdempotent` | main.py:107 | stripping twice is stripping once |
| `PyText.Split` | main.py:29 | at least one part, and no part contains the separator |
| `PyText.SplitJoin` | main.py:29 | splitting a join of separator-free parts gives the parts back |
| `PyText.JoinSplit` | main.py:29 | joining the parts of a split gives the original text back |
| `OcrText.ExtractText` | main.py:95-107 | the filtering loop computes `DetectedText`: `""` for no result, and otherwise the texts of lines scoring strictly above the threshold, joined with `" "` and stripped |
| `OcrText.KeptTextsSingle` | main.py:105-106 | one line contributes its text exactly when its coerced score is strictly above the threshold |
| `OcrText.DefaultThresholdExample` | main.py:42-48 | at the default threshold 0.6, an unscored line and a line scored 0.6 are dropped, and one scored 0.61 is kept |
| `OcrText.KeptTextsConcat` | main.py:99-106 | each line is filtered on its own, and the kept texts keep the engine's order |
| `OcrText.KeptTextsComeFromPassingLines` | main.py:105-106 | every kept text is the text of some line that passed the threshold |
| `OcrText.NothingPassesMeansNoText` | main.py:96-107 | when no line passes, the sample's text is empty |
| `OcrText.UnscoredAndBorderlineLinesDropped` | main.py:101-105 | a missing or unparseable score counts as 0.0 and is dropped for a non-negative threshold; a score equal to the threshold is dropped |
| `Sampling.SampledBeforeClosedForm` | main.py:82 | frames `0, 5, 10, ...` are sampled, so `n` frames contain `ceil(n / 5)` samples |
| `Sampling.Clamp` | main.py:84-86 | the clamped crop lies within the frame |
| `Sampling.ClampIsIntersection` | main.py:84-86 | a pixel is in the crop exactly when it is in both the frame and the region |
| `Sampling.ProcessedCropInFrame` | main.py:88-89 | a crop that is processed is a non-empty rectangle within the frame |
| `Sampling.NonEmptyIffOverlap` | main.py:88 | the crop is processed exactly when the frame and the region have positive size and overlap |
| `Segments.FeedAppend` | main.py:109-126 | feeding one more sample is one more step of the state machine |
| `Segments.BuildSegmentsAreRuns` | main.py:109-151 | the segments are exactly the maximal runs of equal non-empty texts; each runs from its first sample's time to its last sample's time |
| `Segments.RunLength` | main.py:113-115 | the length of the run of one text at the front of the stream: every sample in it shows that text, and the next sample does not |
| `Segments.StepPreservesInvariant` | main.py:113-126 | one later sample keeps the closed segments in order and the open segment after them |
| `Segments.BuildSegmentsChronological` | main.py:109-151 | with increasing sample times, every segment has text and `start <= end`, and each ends before the next starts |
| `Segments.ChronologicalSorted` | main.py:109-126 | in such a list every earlier segment ends before every later one starts |
| `Segments.MergingExample` | main.py:113-126 | three samples of one text, then an empty sample, give one segment spanning them |
| `Segments.ChangeExample` | main.py:116-151 | a change of text closes the open segment and opens a new one |
| `SrtWriter.WriteSrt` | main.py:168-181 | the file contents are `SrtText`: the blocks of the surviving segments numbered 1, 2, ..., each laid out as index, timing line, text and a blank line |
| `SrtWriter.WriteBlocks` | main.py:170-181 | the writing loop skips short segments and appends one block per surviving segment with a running index, giving the survivors' blocks numbered from 1 |
| `SrtWriter.SurvivorsSnoc` | main.py:172-174 | one more segment joins the written ones exactly when it lasts at least 100 ms |
| `SrtWriter.SurvivorsExactly` | main.py:173-174 | a segment is written exactly when it is in the list and lasts at least 100 ms |
| `SrtWriter.SurvivorsConcat` | main.py:171-174 | filtering preserves the order of the segments |
| `SrtWriter.BlocksConcat` | main.py:170-181 | numbering continues without gaps across a concatenation |
| `SrtWriter.BlocksAppend` | main.py:178-181 | the block added after `k` blocks numbered from `first` gets index `first + k` |
| `SrtWriter.BlockNumbering` | main.py:170-181 | the `k`-th written segment gets index `k + 1`, between the blocks before and after it |
| `SrtWriter.FlickerBoundary` | main.py:173 | exactly 100 ms is kept and 99 ms is dropped |
| `Worker.Run` | main.py:149-160 | the outcome holds `BuildSegments` of the observations of the inspected frames and the number of sampled frames; its SubRip text is `SrtText` of those segments, and there is none when the worker was stopped |
| `Worker.ReadFrames` | main.py:64-151 | the frame loop and the final flush produce `BuildSegments` of the observations of the inspected frames, and `processed_count` is the number of sampled frames |
| `Worker.InspectFrame` | main.py:83-126 | a sampled frame whose clamped crop is not empty advances the segments by one `Segments.Step` on its detected text and position; a frame with an empty crop leaves them as they were |
| `Worker.UpdateSegments` | main.py:113-126 | one inspected frame moves the open segment and the closed list exactly as one step of the state machine `Segments.Step` |
| `Worker.ObservationsSnoc` | main.py:82-109 | one more frame adds its observation exactly when it is sampled and its crop is not empty |
| `Worker.ObservationTimesFromFrames` | main.py:82-109 | every observation's time is the position of some frame that was sampled and whose crop is not empty (`FromInspectedFrame`), as line 109 reads it for the inspected frame |
| `Worker.ObservationTimesBelow` | main.py:109 | observation times stay below any strict upper bound on the frame positions |
| `Worker.ObservationsIncreasing` | main.py:82-109 | increasing frame positions give strictly increasing observation times |
| `Worker.RunChronological` | main.py:76-151 | the segments of a run are non-empty, well formed and in time order |
| `Worker.ObservationCount` | main.py:82-88 | there are never more observations than sampled frames, and exactly as many when the region overlaps every frame |
| `Worker.RegionOutsideFrames` | main.py:88 | a region that misses every frame yields no segment and an empty SubRip text |
| `Worker.SkippedFrameChangesNothing` | main.py:82-88 | a frame that is not sampled, or whose crop is empty, leaves the segment state unchanged |
| `Progress.Trunc` | main.py:140 | `int()` truncates toward zero |
| `Progress.SplitHms` | main.py:140-141 | hours, minutes and seconds recombine to the total, and minutes and seconds lie in `0 .. 59` |
| `PyText.DivModUnique` | main.py:140-141 | for a positive divisor, `divmod` gives the only quotient and remainder with the remainder in `0 .. d - 1` |
| `Progress.SplitHmsUnique` | main.py:140-141 | the split is the only one with minutes and seconds in range |
| `Progress.NegativeHours` | main.py:140-141 | a negative total gives negative hours, since Python's `divmod` floors |
| `Progress.Pad2` | main.py:142 | `{n:02d}`: digits reading back as `n` for `n >= 0`, two characters below 100, and a minus sign without padding for a negative `n` |
| `Progress.TimeStrRoundTrip` | main.py:140-142 | below 100 hours the text is `hh:mm:ss` and reads back as the total |
| `Progress.LastSampleOvershoots` | main.py:129-136 | as written: when the frame count is not a multiple of five, the remaining step count is -1 at the last sample |
| `Progress.NegativeRemainingTime` | main.py:133-142 | as written: for 7 frames at 1.5 s per sample, the last report reads `-1:59:59` |
| `Progress.RemainingSecondsFixed` | main.py:133-137 | counting `ceil(frames / 5)` samples, the estimate is never negative before the last sample and is 0 at the last sample |
| `Progress.FixedEstimateNonNegative` | main.py:129-142 | with the corrected count, every report of a run shows a time without a minus sign |
| `Progress.SampledBeforeMonotone` | main.py:82-129 | fewer frames never contain more samples |

## Left out

- Video decoding (`cv2.VideoCapture`, `cap.read`, `CAP_PROP_*`) is not modelled. Each frame arrives as its size, its position in milliseconds and the OCR result for its crop.
- The OCR engine (`RapidOCR`) is not modelled. Its per-frame result is an input, so the model does not connect the pixels of the crop to the detections.
- Detections whose entry has no text field (the `line[1]` access) are not modelled, and neither are scores that parse as NaN or infinity.
- `Worker.Run`, `Worker.ReadFrames`: the loop ends when the frames run out. `is_running` is read once, after the loop (the `stopped` input). A stop during the loop is modelled by passing the frames read before it.
- The region of interest arrives as whole pixels. The `int()` applied to its coordinates in `run` is not modelled.
- The Qt thread, the progress, finished and error signals, and the exception handler are not modelled.
- `Progress.RemainingSecondsFixed`: the wall-clock time is not modelled. The average seconds per sample is an input, and the frame count is taken as the number of frames the loop reads.
- The progress percentage (`int(frame_idx / total_frames * 100)`) and its division by zero for a zero frame count are not modelled.
- `SrtTime.TimedeltaFromMs`: positions are whole milliseconds. The floating-point `ms / 1000` and `timedelta`'s rounding to microseconds are not modelled.
- Writing the file (`open`, UTF-8 encoding) is not modelled. The model produces the text passed to `f.write`. In text mode `open(..., 'w')` translates each `\n` to the platform's line separator, so on Windows the file holds `\r\n`; that translation is not modelled.
- `MainWindow` and the rest of the user interface, including how the region of interest is drawn and scaled to video pixels, are not part of this model.

## Findings

| source | as written | input that shows it | evidently intended | confidence | as-written member | corrected member |
|---|---|---|---|---|---|---|
| main.py:133-142 | `total_steps = total_frames // 5`, but the loop samples frames 0, 5, 10, ..., which is `ceil(total_frames / 5)` samples | 7 frames at 1.5 s per sample: `remain_steps` is -1 at the second sample, and the report reads `-1:59:59` | the remaining time counts down to `00:00:00` | medium, not executed | `Progress.NegativeRemainingTime` | `Progress.FixedEstimateNonNegative` |
| main.py:22-32 | the hour is `str(timedelta)`'s unpadded hour, so below ten hours it has one digit | 0 ms gives `0:00:00,000`, 11 characters | `HH:MM:SS,mmm`, the format the docstring names: `00:00:00,000` | high, not executed | `SrtTime.OneDigitHour` | `SrtTime.SubRipTimeLayout` |
| main.py:22-32 | from one day on, `str(timedelta)` starts with `N day(s), ` and the hour restarts at 0 | 86400000 ms gives `1 day, 0:00:00,000`, which does not read back as a timestamp | hours counted past 24: `24:00:00,000` | high, not executed | `SrtTime.DayLongTimeUnreadable` | `SrtTime.SubRipTimeRoundTrip` |
