/** The remaining-time text `OCRWorker.run` reports after each sample. The
    elapsed wall-clock time is not modelled: the average seconds per sample
    is an input. */
module Progress {
  import opened Options
  import opened PyText
  import opened Sampling

  /** `int(x)`: truncation toward zero. */
  function Trunc(x: real): (n: int)
    ensures x >= 0.0 ==> 0 <= n && n as real <= x < n as real + 1.0
    ensures x < 0.0 ==> n <= 0 && n as real - 1.0 < x <= n as real
  {
    if x >= 0.0 then x.Floor else -((-x).Floor)
  }

  /** Hours, minutes and seconds of a signed number of seconds. */
  datatype Hms = Hms(h: int, m: int, s: int)

  /** The two `divmod(_, 60)` steps; like Python's, they round toward
      negative infinity, so minutes and seconds are never negative. */
  function SplitHms(total: int): (r: Hms)
    ensures r.h * 3600 + r.m * 60 + r.s == total
    ensures 0 <= r.m < 60 && 0 <= r.s < 60
  {
    var m := total / 60;
    Hms(m / 60, m % 60, total % 60)
  }

  /** The split is the only one with minutes and seconds in `0 .. 59`. */
  lemma SplitHmsUnique(total: int, r: Hms)
    requires r.h * 3600 + r.m * 60 + r.s == total
    requires 0 <= r.m < 60 && 0 <= r.s < 60
    ensures r == SplitHms(total)
  {
    var a := r.h * 60 + r.m;
    DivModUnique(total, 60, a, r.s);
    DivModUnique(a, 60, r.h, r.m);
  }

  /** A negative number of seconds has negative hours. */
  lemma NegativeHours(total: int)
    requires total < 0
    ensures SplitHms(total).h < 0
  {
  }

  /** `f"{n:02d}"`: at least two characters, zero-padded; the width counts
      the minus sign, so a negative number is not padded. */
  function Pad2(n: int): (s: string)
    ensures n >= 0 ==> AllDigits(s) && DigitsValue(s) == n
    ensures 0 <= n < 100 ==> |s| == 2
    ensures n < 0 ==> |s| >= 2 && s[0] == '-' && s[1..] == NatToString(-n)
  {
    if n >= 0 then
      ZeroPadRoundTrip(n, 2);
      if n < 100 then ZeroPadWidth(n, 2); ZeroPad(n, 2) else ZeroPad(n, 2)
    else
      "-" + NatToString(-n)
  }

  /** `f"{h:02d}:{m:02d}:{s:02d}"` of the split. */
  function TimeStr(total: int): string
  {
    var r := SplitHms(total);
    Pad2(r.h) + ":" + Pad2(r.m) + ":" + Pad2(r.s)
  }

  /** Reads back an `hh:mm:ss` text of eight characters. */
  function ParseTimeStr(t: string): Option<int>
  {
    if |t| == 8 && t[2] == ':' && t[5] == ':'
       && AllDigits(t[..2]) && AllDigits(t[3..5]) && AllDigits(t[6..])
    then Some(DigitsValue(t[..2]) * 3600 + DigitsValue(t[3..5]) * 60 + DigitsValue(t[6..]))
    else None
  }

  /** Below 100 hours the text is `hh:mm:ss` and gives back its seconds. */
  lemma TimeStrRoundTrip(total: int)
    requires 0 <= total < 360000
    ensures |TimeStr(total)| == 8
    ensures ParseTimeStr(TimeStr(total)) == Some(total)
  {
    var r := SplitHms(total);
    assert 0 <= r.h < 100;
    var t := TimeStr(total);
    var a, b, c := Pad2(r.h), Pad2(r.m), Pad2(r.s);
    assert t == a + ":" + b + ":" + c;
    assert t[..2] == a;
    assert t[3..5] == b;
    assert t[6..] == c;
  }

  /** The number of samples the estimate expects: `total_frames // 5`. */
  function ExpectedSamples(totalFrames: nat): nat
  {
    totalFrames / SkipFrames
  }

  /** The remaining seconds as written: `int((total_steps - processed_count) *
      avg_time)`. */
  function RemainingSeconds(totalFrames: nat, processed: nat, avgTime: real): int
  {
    Trunc((ExpectedSamples(totalFrames) - processed) as real * avgTime)
  }

  /** The estimate expects one sample fewer than the loop takes whenever the
      frame count is not a multiple of five, so at the last sample the
      remaining step count is -1. */
  lemma LastSampleOvershoots(totalFrames: nat)
    requires totalFrames % SkipFrames != 0
    ensures ExpectedSamples(totalFrames) - SampledBefore(totalFrames) == -1
  {
    SampledBeforeClosedForm(totalFrames);
  }

  /** Seven frames are sampled at 0 and 5; with 1.5 seconds per sample the
      last report reads `-1:59:59`. */
  lemma NegativeRemainingTime(totalFrames: nat, avgTime: real)
    requires totalFrames == 7 && avgTime == 1.5
    ensures RemainingSeconds(totalFrames, SampledBefore(totalFrames), avgTime) == -1
    ensures TimeStr(RemainingSeconds(totalFrames, SampledBefore(totalFrames), avgTime)) == "-1:59:59"
  {
    LastSampleOvershoots(totalFrames);
    var steps := ExpectedSamples(totalFrames) - SampledBefore(totalFrames);
    assert Trunc(steps as real * avgTime) == -1 by {
      OneStepBehind(steps, avgTime);
    }
    MinusOneSecond(-1);
  }

  /** -1 steps of 1.5 seconds truncate to -1 second. */
  lemma OneStepBehind(steps: int, avgTime: real)
    requires steps == -1 && avgTime == 1.5
    ensures Trunc(steps as real * avgTime) == -1
  {
    assert steps as real * avgTime == -1.5;
  }

  /** -1 second reads `-1:59:59`. */
  lemma MinusOneSecond(total: int)
    requires total == -1
    ensures TimeStr(total) == "-1:59:59"
  {
    assert SplitHms(total) == Hms(-1, 59, 59) by {
      DivModUnique(total, 60, -1, 59);
      DivModUnique(-1, 60, -1, 59);
    }
    assert Pad2(-1) == "-1" by {
      assert NatToString(1) == "1";
    }
    assert Pad2(59) == "59" by {
      assert NatToString(59) == "59";
    }
  }

  /** The remaining seconds counting the samples the loop really takes,
      `ceil(total_frames / 5)`. */
  function RemainingSecondsFixed(totalFrames: nat, processed: nat, avgTime: real): (r: int)
    ensures avgTime >= 0.0 && processed <= SampledBefore(totalFrames) ==> r >= 0
    ensures processed == SampledBefore(totalFrames) ==> r == 0
  {
    Trunc((SampledBefore(totalFrames) - processed) as real * avgTime)
  }

  /** Every report of a run stays non-negative with the fixed count: the
      `k`-th sample is taken at frame `5 * (k - 1)`, which is below the frame
      count. */
  lemma {:induction false} FixedEstimateNonNegative(totalFrames: nat, frameIdx: nat, avgTime: real)
    requires frameIdx < totalFrames && IsSampled(frameIdx) && avgTime >= 0.0
    ensures RemainingSecondsFixed(totalFrames, SampledBefore(frameIdx + 1), avgTime) >= 0
    ensures TimeStr(RemainingSecondsFixed(totalFrames, SampledBefore(frameIdx + 1), avgTime))[0] != '-'
  {
    SampledBeforeMonotone(frameIdx + 1, totalFrames);
    var rs := RemainingSecondsFixed(totalFrames, SampledBefore(frameIdx + 1), avgTime);
    var r := SplitHms(rs);
    assert r.h >= 0;
    assert Pad2(r.h)[0] != '-';
  }

  /** Fewer frames never have more samples. */
  lemma {:induction false} SampledBeforeMonotone(a: nat, b: nat)
    requires a <= b
    ensures SampledBefore(a) <= SampledBefore(b)
    decreases b - a
  {
    if a < b {
      SampledBeforeMonotone(a, b - 1);
    }
  }
}
