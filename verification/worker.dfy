/** The frame loop of `OCRWorker.run`: sample every fifth frame, clamp the
    region of interest, read the sample's text, feed the segment builder,
    flush the open segment at the end of the stream and lay out the SubRip
    text. Decoding the video and running the OCR engine are not modelled:
    each frame arrives with its size, its position in milliseconds and the
    detections the engine reports for its crop. */
module Worker {
  import opened Options
  import opened OcrText
  import opened Sampling
  import opened Segments
  import opened SrtWriter

  /** One decoded frame as the loop sees it. */
  datatype Frame = Frame(width: nat, height: nat, timeMs: nat, ocr: Option<seq<Detection>>)

  /** Frame `i` is handed to OCR: it is a sampled frame and the clamped
      region has positive width and height. */
  predicate Inspected(frames: seq<Frame>, i: nat, roi: Roi)
    requires i < |frames|
  {
    IsSampled(i) && NonEmpty(Clamp(roi, frames[i].width, frames[i].height))
  }

  /** The observations the segment builder receives from `frames`, in
      frame order: one per inspected frame. */
  function Observations(frames: seq<Frame>, roi: Roi, threshold: real): seq<Observation>
  {
    if frames == [] then []
    else
      var i := |frames| - 1;
      var f := frames[i];
      Observations(frames[..i], roi, threshold)
        + (if Inspected(frames, i, roi) then [Observation(f.timeMs, DetectedText(f.ocr, threshold))] else [])
  }

  /** The outcome of the run: the segments, the number of sampled frames,
      and the SubRip text unless the run was stopped. */
  datatype Outcome = Outcome(subtitles: seq<Segment>, processed: nat, srt: Option<string>)

  /** `frames` are the frames read before the loop ended; `stopped` says
      whether the worker was stopped, in which case nothing is written. */
  method Run(frames: seq<Frame>, roi: Roi, threshold: real, stopped: bool) returns (out: Outcome)
    ensures out.subtitles == BuildSegments(Observations(frames, roi, threshold))
    ensures out.processed == SampledBefore(|frames|)
    ensures out.srt == if stopped then None else Some(SrtText(out.subtitles))
  {
    var subtitles, processed := ReadFrames(frames, roi, threshold);
    if stopped {
      out := Outcome(subtitles, processed, None);
    } else {
      var srt := WriteSrt(subtitles);
      out := Outcome(subtitles, processed, Some(srt));
    }
  }

  /** The frame loop and the end-of-stream flush: the segments built from
      the inspected frames, and the number of sampled frames. */
  method ReadFrames(frames: seq<Frame>, roi: Roi, threshold: real) returns (subtitles: seq<Segment>, processed: nat)
    ensures subtitles == BuildSegments(Observations(frames, roi, threshold))
    ensures processed == SampledBefore(|frames|)
  {
    subtitles := [];
    var current := NoSegment;
    var frameIdx := 0;
    processed := 0;
    while frameIdx < |frames|
      invariant 0 <= frameIdx <= |frames|
      invariant Builder(current, subtitles) == Feed(Initial, Observations(frames[..frameIdx], roi, threshold))
      invariant processed == SampledBefore(frameIdx)
    {
      ObservationsSnoc(frames, frameIdx, roi, threshold);
      if frameIdx % SkipFrames == 0 {
        FeedAppend(Initial, Observations(frames[..frameIdx], roi, threshold),
                   Observation(frames[frameIdx].timeMs, DetectedText(frames[frameIdx].ocr, threshold)));
        current, subtitles := InspectFrame(frames[frameIdx], roi, threshold, current, subtitles);
        processed := processed + 1;
      }
      frameIdx := frameIdx + 1;
    }
    assert frames[..|frames|] == frames;
    if current.text != "" {
      subtitles := subtitles + [current];
    }
  }

  /** One sampled frame: clamp the region, and when the crop is not empty
      read its text and update the segments. */
  method InspectFrame(frame: Frame, roi: Roi, threshold: real, current: Segment, subtitles: seq<Segment>)
    returns (current': Segment, subtitles': seq<Segment>)
    ensures Builder(current', subtitles')
            == if NonEmpty(Clamp(roi, frame.width, frame.height))
               then Step(Builder(current, subtitles), Observation(frame.timeMs, DetectedText(frame.ocr, threshold)))
               else Builder(current, subtitles)
  {
    current', subtitles' := current, subtitles;
    var crop := Clamp(roi, frame.width, frame.height);
    if crop.x2 > crop.x1 && crop.y2 > crop.y1 {
      var detected := ExtractText(frame.ocr, threshold);
      var currentMs := frame.timeMs;
      current', subtitles' := UpdateSegments(current, subtitles, detected, currentMs);
    }
  }

  /** Taking one more frame adds its observation when it is inspected. */
  lemma ObservationsSnoc(frames: seq<Frame>, i: nat, roi: Roi, threshold: real)
    requires i < |frames|
    ensures Inspected(frames, i, roi) ==>
              Observations(frames[..i + 1], roi, threshold)
              == Observations(frames[..i], roi, threshold) + [Observation(frames[i].timeMs, DetectedText(frames[i].ocr, threshold))]
    ensures !Inspected(frames, i, roi) ==>
              Observations(frames[..i + 1], roi, threshold) == Observations(frames[..i], roi, threshold)
  {
    assert frames[..i + 1][..i] == frames[..i];
  }

  /** The segment logic for one inspected frame: the same text extends the
      open segment, another text closes it and opens a new one, no text
      closes it. */
  method UpdateSegments(current: Segment, subtitles: seq<Segment>, detected: string, currentMs: nat)
    returns (current': Segment, subtitles': seq<Segment>)
    ensures Builder(current', subtitles') == Step(Builder(current, subtitles), Observation(currentMs, detected))
  {
    current', subtitles' := current, subtitles;
    if detected != "" {
      if current.text == detected {
        current' := current.(end := currentMs);
      } else {
        if current.text != "" {
          subtitles' := subtitles + [current];
        }
        current' := Segment(detected, currentMs, currentMs);
      }
    } else if current.text != "" {
      subtitles' := subtitles + [current];
      current' := NoSegment;
    }
  }

  /** Frame positions strictly increase, as they do while a video is read. */
  predicate FramesIncreasing(frames: seq<Frame>)
  {
    forall i, j :: 0 <= i < j < |frames| ==> frames[i].timeMs < frames[j].timeMs
  }

  /** `time` is the position of a frame of `frames` that was handed to OCR. */
  predicate FromInspectedFrame(frames: seq<Frame>, roi: Roi, time: nat)
  {
    exists i :: 0 <= i < |frames| && Inspected(frames, i, roi) && frames[i].timeMs == time
  }

  /** Every observation is stamped with the position of a frame in `frames`
      that was handed to OCR. */
  lemma ObservationTimesFromFrames(frames: seq<Frame>, roi: Roi, threshold: real)
    ensures forall k :: 0 <= k < |Observations(frames, roi, threshold)| ==>
              FromInspectedFrame(frames, roi, Observations(frames, roi, threshold)[k].time)
  {
    forall k | 0 <= k < |Observations(frames, roi, threshold)|
      ensures FromInspectedFrame(frames, roi, Observations(frames, roi, threshold)[k].time)
    {
      var i := ObservationSource(frames, roi, threshold, k);
    }
  }

  /** The inspected frame that observation `k` comes from. */
  lemma {:induction false} ObservationSource(frames: seq<Frame>, roi: Roi, threshold: real, k: nat) returns (i: nat)
    requires k < |Observations(frames, roi, threshold)|
    ensures i < |frames| && Inspected(frames, i, roi)
    ensures Observations(frames, roi, threshold)[k].time == frames[i].timeMs
  {
    var last := |frames| - 1;
    var init := frames[..last];
    var before := Observations(init, roi, threshold);
    if k < |before| {
      i := ObservationSource(init, roi, threshold, k);
      assert init[i] == frames[i];
    } else {
      i := last;
    }
  }

  /** Observation times stay below any strict upper bound on the frame
      positions. */
  lemma ObservationTimesBelow(frames: seq<Frame>, roi: Roi, threshold: real, bound: int)
    requires forall i :: 0 <= i < |frames| ==> frames[i].timeMs < bound
    ensures forall k :: 0 <= k < |Observations(frames, roi, threshold)| ==>
              Observations(frames, roi, threshold)[k].time < bound
  {
    ObservationTimesFromFrames(frames, roi, threshold);
  }

  /** Increasing frame positions give strictly increasing observation times. */
  lemma {:induction false} ObservationsIncreasing(frames: seq<Frame>, roi: Roi, threshold: real)
    requires FramesIncreasing(frames)
    ensures StrictlyIncreasing(Observations(frames, roi, threshold))
  {
    if frames != [] {
      var init := frames[..|frames| - 1];
      ObservationsIncreasing(init, roi, threshold);
      ObservationTimesBelow(init, roi, threshold, frames[|frames| - 1].timeMs);
    }
  }

  /** The segments of a run are non-empty, well formed and in time order, so
      the SubRip blocks come out in order. */
  lemma RunChronological(frames: seq<Frame>, roi: Roi, threshold: real)
    requires FramesIncreasing(frames)
    ensures Chronological(BuildSegments(Observations(frames, roi, threshold)))
  {
    ObservationsIncreasing(frames, roi, threshold);
    BuildSegmentsChronological(Observations(frames, roi, threshold));
  }

  /** One observation per inspected frame: never more than the sampled
      frames, and exactly as many when the region overlaps every frame. */
  lemma {:induction false} ObservationCount(frames: seq<Frame>, roi: Roi, threshold: real)
    ensures |Observations(frames, roi, threshold)| <= SampledBefore(|frames|)
    ensures (forall i :: 0 <= i < |frames| ==> NonEmpty(Clamp(roi, frames[i].width, frames[i].height)))
            ==> |Observations(frames, roi, threshold)| == SampledBefore(|frames|)
  {
    if frames != [] {
      var init := frames[..|frames| - 1];
      ObservationCount(init, roi, threshold);
      assert forall i :: 0 <= i < |init| ==> init[i] == frames[i];
    }
  }

  /** A region that misses every frame yields no observation, no segment and
      an empty subtitle file. */
  lemma {:induction false} RegionOutsideFrames(frames: seq<Frame>, roi: Roi, threshold: real)
    requires forall i :: 0 <= i < |frames| ==> !NonEmpty(Clamp(roi, frames[i].width, frames[i].height))
    ensures Observations(frames, roi, threshold) == []
    ensures BuildSegments(Observations(frames, roi, threshold)) == []
    ensures SrtText(BuildSegments(Observations(frames, roi, threshold))) == ""
  {
    if frames != [] {
      var init := frames[..|frames| - 1];
      RegionOutsideFrames(init, roi, threshold);
    }
  }

  /** A frame that is not inspected leaves the builder as it was. */
  lemma SkippedFrameChangesNothing(frames: seq<Frame>, f: Frame, roi: Roi, threshold: real)
    requires !Inspected(frames + [f], |frames|, roi)
    ensures Feed(Initial, Observations(frames + [f], roi, threshold))
            == Feed(Initial, Observations(frames, roi, threshold))
  {
    assert (frames + [f])[..|frames|] == frames;
    assert Observations(frames + [f], roi, threshold) == Observations(frames, roi, threshold);
  }
}
