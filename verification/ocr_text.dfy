/** Turning the OCR engine's detections for one sampled crop into the single
    text observation of that sample. The engine itself is not modelled: its
    output is an input here. */
module OcrText {
  import opened Options
  import opened PyText

  /** One line the engine reports: its text, and its confidence score when
      that is present and reads as a number (`float(line[2])` succeeds). */
  datatype Detection = Detection(text: string, score: Option<real>)

  /** The confidence threshold `OCRWorker` uses unless told otherwise. */
  const DefaultThreshold: real := 0.6

  /** The coerced score: a missing or unparseable score counts as 0.0. */
  function ScoreOf(d: Detection): real
  {
    match d.score
    case Some(v) => v
    case None => 0.0
  }

  /** A line is kept when its score is strictly above the threshold. */
  predicate Passes(d: Detection, threshold: real)
  {
    ScoreOf(d) > threshold
  }

  /** The texts of the kept lines, in the engine's order. */
  function KeptTexts(lines: seq<Detection>, threshold: real): seq<string>
  {
    if lines == [] then []
    else
      var last := lines[|lines| - 1];
      KeptTexts(lines[..|lines| - 1], threshold) + (if Passes(last, threshold) then [last.text] else [])
  }

  /** The sample's text: nothing when the engine found nothing, else the kept
      lines joined with single spaces and stripped. */
  function DetectedText(result: Option<seq<Detection>>, threshold: real): string
  {
    match result
    case None => ""
    case Some(lines) => if lines == [] then "" else Strip(Join(KeptTexts(lines, threshold), ' '))
  }

  /** The filtering loop of `OCRWorker.run`. */
  method ExtractText(result: Option<seq<Detection>>, threshold: real) returns (detected: string)
    ensures detected == DetectedText(result, threshold)
  {
    detected := "";
    if result.Some? && result.value != [] {
      var lines := result.value;
      var texts: seq<string> := [];
      var i := 0;
      while i < |lines|
        invariant 0 <= i <= |lines|
        invariant texts == KeptTexts(lines[..i], threshold)
      {
        var score := ScoreOf(lines[i]);
        if score > threshold {
          texts := texts + [lines[i].text];
        }
        assert lines[..i + 1][..i] == lines[..i];
        i := i + 1;
      }
      assert lines[..|lines|] == lines;
      detected := Strip(Join(texts, ' '));
    }
  }

  /** Each line contributes on its own and in place: filtering a concatenation
      is concatenating the filtered parts. */
  lemma {:induction false} KeptTextsConcat(a: seq<Detection>, b: seq<Detection>, threshold: real)
    ensures KeptTexts(a + b, threshold) == KeptTexts(a, threshold) + KeptTexts(b, threshold)
  {
    if b == [] {
      assert a + b == a;
    } else {
      var b' := b[..|b| - 1];
      assert (a + b)[..|a + b| - 1] == a + b';
      KeptTextsConcat(a, b', threshold);
    }
  }

  /** A single line contributes its text exactly when its score is strictly
      above the threshold. */
  lemma KeptTextsSingle(d: Detection, threshold: real)
    ensures KeptTexts([d], threshold) == (if ScoreOf(d) > threshold then [d.text] else [])
  {
    assert [d][..0] == [];
  }

  /** Every kept text belongs to a line that passed. */
  lemma {:induction false} KeptTextsComeFromPassingLines(lines: seq<Detection>, threshold: real, k: nat)
    requires k < |KeptTexts(lines, threshold)|
    ensures exists i :: 0 <= i < |lines| && Passes(lines[i], threshold) && lines[i].text == KeptTexts(lines, threshold)[k]
  {
    var init := lines[..|lines| - 1];
    var last := lines[|lines| - 1];
    if k < |KeptTexts(init, threshold)| {
      KeptTextsComeFromPassingLines(init, threshold, k);
      var i :| 0 <= i < |init| && Passes(init[i], threshold) && init[i].text == KeptTexts(init, threshold)[k];
      assert lines[i] == init[i];
    } else {
      assert Passes(last, threshold) && last.text == KeptTexts(lines, threshold)[k];
    }
  }

  /** When no line passes, the sample's text is empty. */
  lemma {:induction false} NothingPassesMeansNoText(lines: seq<Detection>, threshold: real)
    requires forall i :: 0 <= i < |lines| ==> !Passes(lines[i], threshold)
    ensures KeptTexts(lines, threshold) == []
    ensures DetectedText(Some(lines), threshold) == ""
  {
    if lines != [] {
      NothingPassesMeansNoText(lines[..|lines| - 1], threshold);
    }
  }

  /** A line whose score is missing or unparseable never passes a
      non-negative threshold, and a score equal to the threshold never passes. */
  lemma UnscoredAndBorderlineLinesDropped(d: Detection, threshold: real)
    ensures d.score.None? && threshold >= 0.0 ==> !Passes(d, threshold)
    ensures ScoreOf(d) == threshold ==> !Passes(d, threshold)
  {
  }

  /** At the default threshold 0.6, an unscored line and a line scored
      exactly 0.6 are dropped, and a line scored 0.61 is kept. */
  lemma DefaultThresholdExample(t: string)
    ensures KeptTexts([Detection(t, None)], DefaultThreshold) == []
    ensures KeptTexts([Detection(t, Some(0.6))], DefaultThreshold) == []
    ensures KeptTexts([Detection(t, Some(0.61))], DefaultThreshold) == [t]
  {
    KeptTextsSingle(Detection(t, None), DefaultThreshold);
    KeptTextsSingle(Detection(t, Some(0.6)), DefaultThreshold);
    KeptTextsSingle(Detection(t, Some(0.61)), DefaultThreshold);
  }
}
