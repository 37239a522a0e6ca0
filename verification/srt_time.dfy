/** `ms_to_srt_time`: a whole number of milliseconds as the text SubRip
    timing lines carry. The source goes through `str(datetime.timedelta)`,
    so the hours are not padded and a duration of a day or more gets a
    `"N day(s), "` prefix; both are modelled as the source produces them. */
module SrtTime {
  import opened Options
  import opened PyText

  const MsPerSecond: nat := 1000
  const MsPerMinute: nat := 60000
  const MsPerHour: nat := 3600000
  const MsPerDay: nat := 86400000

  /** Python's `datetime.timedelta` in its normal form (non-negative here). */
  datatype Timedelta = Timedelta(days: nat, seconds: nat, microseconds: nat)

  /** `datetime.timedelta(seconds=ms / 1000)`: the normal form of `ms` milliseconds. */
  function TimedeltaFromMs(ms: nat): (td: Timedelta)
    ensures td.seconds < 86400 && td.microseconds < 1000000
    ensures (td.days * 86400 + td.seconds) * 1000000 + td.microseconds == ms * 1000
  {
    var td := Timedelta(ms / MsPerDay, ms % MsPerDay / MsPerSecond, ms % MsPerSecond * 1000);
    MsNormalForm(ms);
    td
  }

  lemma MsNormalForm(ms: nat)
    ensures (ms / MsPerDay * 86400 + ms % MsPerDay / MsPerSecond) * 1000000 + ms % MsPerSecond * 1000 == ms * 1000
  {
  }

  /** `"%d day%s, " % plural(days)`, printed only for a non-zero day count. */
  function DayPrefix(days: nat): string
  {
    if days == 0 then "" else NatToString(days) + " day" + (if days != 1 then "s" else "") + ", "
  }

  /** `str(td)`: `[D day[s], ]H:MM:SS[.ffffff]`, the fraction only when there
      are microseconds. */
  function TimedeltaStr(td: Timedelta): string
  {
    var mm := td.seconds / 60;
    var ss := td.seconds % 60;
    var hh := mm / 60;
    var clock := Clock(td.days, hh, mm % 60, ss);
    if td.microseconds != 0 then clock + "." + ZeroPad(td.microseconds, 6) else clock
  }

  /** The day prefix followed by `"%d:%02d:%02d" % (hh, mm, ss)`. */
  function Clock(days: nat, hh: nat, mm: nat, ss: nat): string
  {
    DayPrefix(days) + HourClock(hh, mm, ss)
  }

  function HourClock(hh: nat, mm: nat, ss: nat): string
  {
    NatToString(hh) + ":" + ZeroPad(mm, 2) + ":" + ZeroPad(ss, 2)
  }

  /** Python's `s[:n]`. */
  function Take(s: string, n: nat): string
  {
    if |s| <= n then s else s[..n]
  }

  /** `ms_to_srt_time(ms)`: split `str(timedelta)` at its '.' and keep the
      first three fraction digits, or append ",000" when there is no '.'. */
  function MsToSrtTime(ms: nat): string
  {
    var fin := TimedeltaStr(TimedeltaFromMs(ms));
    if '.' in fin then
      var parts := Split(fin, '.');
      TimedeltaStrSplit(ms);
      parts[0] + "," + Take(parts[1], 3)
    else
      fin + ",000"
  }

  /** The part of the result before the comma: the day prefix when there is
      one, the unpadded hour of the day and two-digit minutes and seconds. */
  function ClockText(ms: nat): string
  {
    Clock(ms / MsPerDay, ms % MsPerDay / MsPerHour, ms % MsPerHour / MsPerMinute, ms % MsPerMinute / MsPerSecond)
  }

  lemma NoDotInDigits(s: string)
    requires AllDigits(s)
    ensures '.' !in s
  {
  }

  lemma NoDotInClock(days: nat, hh: nat, mm: nat, ss: nat)
    ensures '.' !in Clock(days, hh, mm, ss)
  {
    NoDotInDigits(NatToString(hh));
    NoDotInDigits(ZeroPad(mm, 2));
    NoDotInDigits(ZeroPad(ss, 2));
    assert '.' !in HourClock(hh, mm, ss);
    if days != 0 { NoDotInDigits(NatToString(days)); }
  }

  lemma SecondsOfDay(r: nat)
    ensures r / 1000 / 60 / 60 == r / MsPerHour
    ensures r / 1000 / 60 % 60 == r % MsPerHour / MsPerMinute
  {
  }

  lemma SecondOfMinute(r: nat)
    ensures r / 1000 % 60 == r % MsPerMinute / MsPerSecond
  {
    var q := r / MsPerMinute;
    var m := r % MsPerMinute;
    assert r == MsPerMinute * q + m;
    assert r / 1000 == 60 * q + m / 1000;
  }

  lemma DayRemainder(ms: nat)
    ensures ms % MsPerDay % MsPerHour == ms % MsPerHour
    ensures ms % MsPerDay % MsPerMinute == ms % MsPerMinute
  {
    var q, r := ms / MsPerDay, ms % MsPerDay;
    assert ms == q * MsPerDay + r;
    assert r == r / MsPerHour * MsPerHour + r % MsPerHour;
    assert r == r / MsPerMinute * MsPerMinute + r % MsPerMinute;
    DivModUnique(ms, MsPerHour, 24 * q + r / MsPerHour, r % MsPerHour);
    DivModUnique(ms, MsPerMinute, 1440 * q + r / MsPerMinute, r % MsPerMinute);
  }

  /** The clock arithmetic of `timedelta.__str__` (divmod by 60, then by 60
      again) agrees with dividing the milliseconds directly. */
  lemma TimedeltaClock(ms: nat)
    ensures var td := TimedeltaFromMs(ms);
            TimedeltaStr(td) == ClockText(ms) + (if td.microseconds != 0 then "." + ZeroPad(td.microseconds, 6) else "")
  {
    var r := ms % MsPerDay;
    SecondsOfDay(r);
    SecondOfMinute(r);
    DayRemainder(ms);
  }

  /** `str(td)` holds at most one '.', so unpacking its split into two
      names never fails. */
  lemma TimedeltaStrSplit(ms: nat)
    ensures var fin := TimedeltaStr(TimedeltaFromMs(ms));
            '.' in fin ==> |Split(fin, '.')| == 2
  {
    var td := TimedeltaFromMs(ms);
    var fin := TimedeltaStr(td);
    TimedeltaClock(ms);
    NoDotInClock(ms / MsPerDay, ms % MsPerDay / MsPerHour, ms % MsPerHour / MsPerMinute, ms % MsPerMinute / MsPerSecond);
    if td.microseconds != 0 {
      var frac := ZeroPad(td.microseconds, 6);
      NoDotInDigits(frac);
      assert fin == ClockText(ms) + ("." + frac);
      SplitAfterPlainPrefix(ClockText(ms), "." + frac, '.');
      assert ("." + frac)[1..] == frac;
      SplitPlain(frac, '.');
    }
  }

  /** `str(k * 1000) == str(k) + "000"` for a positive `k`. */
  lemma NatToStringThousand(k: nat)
    requires k > 0
    ensures NatToString(k * 1000) == NatToString(k) + "000"
  {
    assert NatToString(k * 10) == NatToString(k) + "0";
    assert NatToString(k * 100) == NatToString(k * 10) + "0";
    assert NatToString(k * 1000) == NatToString(k * 100) + "0";
  }

  /** The first three of the six microsecond digits are the milliseconds,
      padded to three digits. */
  lemma MicrosecondDigits(k: nat)
    requires 0 < k < 1000
    ensures Take(ZeroPad(k * 1000, 6), 3) == ZeroPad(k, 3)
  {
    var d := NatToString(k);
    NatToStringFits(k, 3);
    NatToStringThousand(k);
    var p6 := ZeroPad(k * 1000, 6);
    assert p6 == Zeros(3 - |d|) + d + "000";
    assert ZeroPad(k, 3) == Zeros(3 - |d|) + d;
  }

  lemma SplitAtFraction(clock: string, frac: string)
    requires '.' !in clock && '.' !in frac
    ensures Split(clock + "." + frac, '.') == [clock, frac]
  {
    assert clock + "." + frac == clock + ("." + frac);
    SplitAfterPlainPrefix(clock, "." + frac, '.');
    assert ("." + frac)[1..] == frac;
    SplitPlain(frac, '.');
    assert clock + "" == clock;
  }

  /** What `ms_to_srt_time` produces, in full: the clock text, a comma, and
      the millisecond remainder padded to exactly three digits. */
  lemma {:induction false} MsToSrtTimeShape(ms: nat)
    ensures MsToSrtTime(ms) == ClockText(ms) + "," + ZeroPad(ms % MsPerSecond, 3)
  {
    var td := TimedeltaFromMs(ms);
    var fin := TimedeltaStr(td);
    var clock := ClockText(ms);
    var f := ms % MsPerSecond;
    TimedeltaClock(ms);
    NoDotInClock(ms / MsPerDay, ms % MsPerDay / MsPerHour, ms % MsPerHour / MsPerMinute, ms % MsPerMinute / MsPerSecond);
    if f != 0 {
      var frac := ZeroPad(td.microseconds, 6);
      NoDotInDigits(frac);
      assert fin == clock + "." + frac;
      SplitAtFraction(clock, frac);
      assert '.' in fin by { assert fin[|clock|] == '.'; }
      MicrosecondDigits(f);
    } else {
      assert td.microseconds == 0;
      assert fin == clock;
      assert ZeroPad(0, 3) == "000";
    }
  }

  /** The fraction is ",000" exactly for whole seconds, and otherwise the
      millisecond remainder in three digits. */
  lemma {:induction false} FractionDigits(ms: nat)
    ensures var r := MsToSrtTime(ms);
            |r| >= 4 && r[|r| - 4..] == "," + ZeroPad(ms % MsPerSecond, 3)
    ensures var r := MsToSrtTime(ms);
            r[|r| - 4..] == ",000" <==> ms % MsPerSecond == 0
  {
    var f := ZeroPad(ms % MsPerSecond, 3);
    assert |f| == 3 by { ZeroPadWidth(ms % MsPerSecond, 3); }
    assert MsToSrtTime(ms) == ClockText(ms) + ("," + f) by { MsToSrtTimeShape(ms); }
    CommaSuffix(ClockText(ms), "," + f);
    assert f == "000" <==> ms % MsPerSecond == 0 by { PaddedZero(ms % MsPerSecond); }
    assert ("," + f)[1..] == f && ",000"[1..] == "000";
    assert "," + f == ",000" <==> f == "000";
  }

  lemma CommaSuffix(c: string, t: string)
    requires |t| == 4
    ensures (c + t)[|c + t| - 4..] == t
  {
  }

  /** Three zero digits stand for zero and nothing else. */
  lemma PaddedZero(n: nat)
    ensures ZeroPad(n, 3) == "000" <==> n == 0
  {
    if ZeroPad(n, 3) == "000" {
      ZeroPadRoundTrip(n, 3);
      assert Zeros(3) == "000";
      ZerosValue(3);
    }
    if n == 0 {
      assert NatToString(0) == "0";
      assert Zeros(2) + "0" == "000";
    }
  }

  /** Reads a SubRip timestamp `H:MM:SS,mmm` (any number of hour digits) back
      into milliseconds. */
  function ParseSrtTime(s: string): Option<nat>
  {
    if |s| >= 11 then ParseFieldsAfter(s[..|s| - 10], s[|s| - 10..]) else None
  }

  /** The hour digits, then the fixed-width rest. */
  function ParseFieldsAfter(hours: string, rest: string): Option<nat>
  {
    if AllDigits(hours) && IsFieldsText(rest) then
      Some(DigitsValue(hours) * MsPerHour + FieldsValue(rest))
    else None
  }

  /** The ten characters after the hours: `:MM:SS,mmm`. */
  predicate IsFieldsText(t: string)
  {
    && |t| == 10 && t[0] == ':' && t[3] == ':' && t[6] == ','
    && IsDigit(t[1]) && IsDigit(t[2]) && IsDigit(t[4]) && IsDigit(t[5])
    && IsDigit(t[7]) && IsDigit(t[8]) && IsDigit(t[9])
  }

  /** The minutes, seconds and milliseconds of such a text, in milliseconds. */
  function FieldsValue(t: string): nat
    requires |t| == 10
  {
    (DigitValue(t[1]) * 10 + DigitValue(t[2])) * MsPerMinute
    + (DigitValue(t[4]) * 10 + DigitValue(t[5])) * MsPerSecond
    + DigitValue(t[7]) * 100 + DigitValue(t[8]) * 10 + DigitValue(t[9])
  }

  lemma SplitClock(ms: nat)
    ensures ms == ms / MsPerHour * MsPerHour + ms % MsPerHour / MsPerMinute * MsPerMinute
                  + ms % MsPerMinute / MsPerSecond * MsPerSecond + ms % MsPerSecond
  {
    var h, rh := ms / MsPerHour, ms % MsPerHour;
    var m, rm := rh / MsPerMinute, rh % MsPerMinute;
    var sc, f := rm / MsPerSecond, rm % MsPerSecond;
    assert ms == h * MsPerHour + rh;
    assert rh == m * MsPerMinute + rm;
    assert rm == sc * MsPerSecond + f;
    DivModUnique(ms, MsPerMinute, 60 * h + m, rm);
    DivModUnique(ms, MsPerSecond, 3600 * h + 60 * m + sc, f);
  }

  /** Reading back a timestamp printed from its four fields. */
  lemma {:induction false} ParseClock(h: nat, m: nat, sec: nat, f: nat)
    requires m < 100 && sec < 100 && f < 1000
    ensures ParseSrtTime(NatToString(h) + ":" + ZeroPad(m, 2) + ":" + ZeroPad(sec, 2) + "," + ZeroPad(f, 3))
            == Some(h * MsPerHour + m * MsPerMinute + sec * MsPerSecond + f)
  {
    var hs := NatToString(h);
    var rest := FieldsText(m, sec, f);
    assert ParseSrtTime(hs + rest) == Some(h * MsPerHour + m * MsPerMinute + sec * MsPerSecond + f) by {
      ParseFields(m, sec, f);
      NatToStringRoundTrip(h);
      ParseHoursAndFields(hs, rest, h, m * MsPerMinute + sec * MsPerSecond + f);
    }
    assert hs + rest == hs + ":" + ZeroPad(m, 2) + ":" + ZeroPad(sec, 2) + "," + ZeroPad(f, 3) by {
      Regroup(hs, ":", ZeroPad(m, 2), ":", ZeroPad(sec, 2), ",", ZeroPad(f, 3));
    }
  }

  /** The parser splits hour digits followed by ten field characters back
      into the two. */
  lemma ParseJoined(hs: string, rest: string)
    requires |hs| >= 1 && |rest| == 10
    ensures ParseSrtTime(hs + rest) == ParseFieldsAfter(hs, rest)
  {
    SplitAppend(hs, rest);
  }

  /** Hour digits worth `h` followed by fields worth `v` read back as
      `h` hours and `v` milliseconds. */
  lemma ParseHoursAndFields(hs: string, rest: string, h: nat, v: nat)
    requires |hs| >= 1 && AllDigits(hs) && DigitsValue(hs) == h
    requires IsFieldsText(rest) && FieldsValue(rest) == v
    ensures ParseSrtTime(hs + rest) == Some(h * MsPerHour + v)
  {
    ParseJoined(hs, rest);
  }

  lemma SplitAppend(a: string, b: string)
    ensures (a + b)[..|a|] == a && (a + b)[|a|..] == b
  {
  }

  /** The text after the hours: minutes, seconds and milliseconds. */
  function FieldsText(m: nat, sec: nat, f: nat): string
  {
    ":" + ZeroPad(m, 2) + ":" + ZeroPad(sec, 2) + "," + ZeroPad(f, 3)
  }

  lemma Regroup(a: string, b: string, c: string, d: string, e: string, f: string, g: string)
    ensures a + b + c + d + e + f + g == a + (b + c + d + e + f + g)
  {
  }

  /** The fields after the hours read back as their milliseconds. */
  lemma ParseFields(m: nat, sec: nat, f: nat)
    requires m < 100 && sec < 100 && f < 1000
    ensures IsFieldsText(FieldsText(m, sec, f))
    ensures FieldsValue(FieldsText(m, sec, f)) == m * MsPerMinute + sec * MsPerSecond + f
  {
    PaddedTwo(m);
    PaddedTwo(sec);
    PaddedThree(f);
    FieldsLayout(ZeroPad(m, 2), ZeroPad(sec, 2), ZeroPad(f, 3));
  }

  /** Where each character of the fields text comes from. */
  lemma FieldsLayout(ms: string, ss: string, fs: string)
    requires |ms| == 2 && |ss| == 2 && |fs| == 3
    ensures var t := ":" + ms + ":" + ss + "," + fs;
            && |t| == 10 && t[0] == ':' && t[3] == ':' && t[6] == ','
            && t[1] == ms[0] && t[2] == ms[1] && t[4] == ss[0] && t[5] == ss[1]
            && t[7] == fs[0] && t[8] == fs[1] && t[9] == fs[2]
  {
  }

  /** `%02d` of a number below 100: two digits worth that number. */
  lemma PaddedTwo(n: nat)
    requires n < 100
    ensures var s := ZeroPad(n, 2);
            |s| == 2 && IsDigit(s[0]) && IsDigit(s[1]) && DigitValue(s[0]) * 10 + DigitValue(s[1]) == n
  {
    ZeroPadWidth(n, 2);
    ZeroPadRoundTrip(n, 2);
    TwoDigits(ZeroPad(n, 2));
  }

  /** `%03d` of a number below 1000: three digits worth that number. */
  lemma PaddedThree(n: nat)
    requires n < 1000
    ensures var s := ZeroPad(n, 3);
            && |s| == 3 && IsDigit(s[0]) && IsDigit(s[1]) && IsDigit(s[2])
            && DigitValue(s[0]) * 100 + DigitValue(s[1]) * 10 + DigitValue(s[2]) == n
  {
    ZeroPadWidth(n, 3);
    ZeroPadRoundTrip(n, 3);
    ThreeDigits(ZeroPad(n, 3));
  }

  lemma TwoDigits(s: string)
    requires |s| == 2
    ensures DigitsValue(s) == DigitValue(s[0]) * 10 + DigitValue(s[1])
  {
    var head := s[..1];
    assert head[..0] == [] && head[0] == s[0];
    assert DigitsValue(head) == DigitValue(s[0]);
    assert DigitsValue(s) == DigitsValue(head) * 10 + DigitValue(s[1]);
  }

  lemma ThreeDigits(s: string)
    requires |s| == 3
    ensures DigitsValue(s) == DigitValue(s[0]) * 100 + DigitValue(s[1]) * 10 + DigitValue(s[2])
  {
    TwoDigits(s[..2]);
  }

  /** Below one day the formatter's output reads back as the same number of
      milliseconds: `ParseSrtTime` is its inverse. */
  lemma {:induction false} SrtTimeRoundTrip(ms: nat)
    requires ms < MsPerDay
    ensures ParseSrtTime(MsToSrtTime(ms)) == Some(ms)
  {
    var h, m, sec, f := ms / MsPerHour, ms % MsPerHour / MsPerMinute, ms % MsPerMinute / MsPerSecond, ms % MsPerSecond;
    var text := NatToString(h) + ":" + ZeroPad(m, 2) + ":" + ZeroPad(sec, 2) + "," + ZeroPad(f, 3);
    assert ParseSrtTime(text) == Some(ms) by {
      ParseClock(h, m, sec, f);
      SplitClock(ms);
    }
    assert ClockText(ms) == Clock(0, h, m, sec) by {
      assert ms / MsPerDay == 0 && ms % MsPerDay == ms;
    }
    assert Clock(0, h, m, sec) == HourClock(h, m, sec) by {
      assert DayPrefix(0) == "";
    }
    MsToSrtTimeShape(ms);
  }

  // ---------------------------------------------------------------------
  // The SubRip timestamp the docstring of `ms_to_srt_time` promises,
  // `HH:MM:SS,mmm`: hours padded to two digits and counted past 24.

  /** The intended timestamp: two-digit hours that do not wrap at a day. */
  function SubRipTime(ms: nat): string
  {
    PaddedClock(ms / MsPerHour, ms % MsPerHour / MsPerMinute, ms % MsPerMinute / MsPerSecond, ms % MsPerSecond)
  }

  /** `%02d:%02d:%02d,%03d` of hours, minutes, seconds and milliseconds. */
  function PaddedClock(h: nat, m: nat, sec: nat, f: nat): string
  {
    ZeroPad(h, 2) + FieldsText(m, sec, f)
  }

  /** Below 100 hours the intended timestamp has SubRip's 12 characters,
      `HH:MM:SS,mmm`. */
  lemma SubRipTimeLayout(ms: nat)
    requires ms < 100 * MsPerHour
    ensures var r := SubRipTime(ms);
            |r| == 12 && r[2] == ':' && r[5] == ':' && r[8] == ','
  {
    var h := ms / MsPerHour;
    assert h < 100 by { QuotientBelow(ms, MsPerHour, 100); }
    var hs := ZeroPad(h, 2);
    assert |hs| == 2 by { ZeroPadWidth(h, 2); }
    var rest := FieldsText(ms % MsPerHour / MsPerMinute, ms % MsPerMinute / MsPerSecond, ms % MsPerSecond);
    assert IsFieldsText(rest) by {
      FieldsInRange(ms);
      ParseFields(ms % MsPerHour / MsPerMinute, ms % MsPerMinute / MsPerSecond, ms % MsPerSecond);
    }
    assert (hs + rest)[2] == rest[0] && (hs + rest)[5] == rest[3] && (hs + rest)[8] == rest[6];
  }

  /** For every number of milliseconds, however many days it spans, the
      intended timestamp reads back as that number. */
  lemma SubRipTimeRoundTrip(ms: nat)
    ensures ParseSrtTime(SubRipTime(ms)) == Some(ms)
  {
    var h := ms / MsPerHour;
    var m, sec, f := ms % MsPerHour / MsPerMinute, ms % MsPerMinute / MsPerSecond, ms % MsPerSecond;
    assert m < 60 && sec < 60 by { FieldsInRange(ms); }
    ParsePaddedValue(h, m, sec, f, ms) by { SplitClock(ms); }
  }

  /** `ParsePadded` with the sum of the fields named by `ms`: it lets
      `SubRipTimeRoundTrip` hand over the division facts as one equation,
      which keeps that proof small for the solver. */
  lemma ParsePaddedValue(h: nat, m: nat, sec: nat, f: nat, ms: nat)
    requires m < 60 && sec < 60 && f < 1000
    requires h * MsPerHour + m * MsPerMinute + sec * MsPerSecond + f == ms
    ensures ParseSrtTime(PaddedClock(h, m, sec, f)) == Some(ms)
  {
    ParsePadded(h, m, sec, f);
  }

  /** Minutes and seconds of any time are below 60. */
  lemma FieldsInRange(ms: nat)
    ensures ms % MsPerHour / MsPerMinute < 60 && ms % MsPerMinute / MsPerSecond < 60
  {
    QuotientBelow(ms % MsPerHour, MsPerMinute, 60);
    QuotientBelow(ms % MsPerMinute, MsPerSecond, 60);
  }

  /** Reading back a padded timestamp from its four fields. */
  lemma ParsePadded(h: nat, m: nat, sec: nat, f: nat)
    requires m < 60 && sec < 60 && f < 1000
    ensures ParseSrtTime(PaddedClock(h, m, sec, f))
            == Some(h * MsPerHour + m * MsPerMinute + sec * MsPerSecond + f)
  {
    var hs := ZeroPad(h, 2);
    assert |hs| >= 1 && DigitsValue(hs) == h by {
      ZeroPadRoundTrip(h, 2);
    }
    ParseFields(m, sec, f);
    ParseHoursAndFields(hs, FieldsText(m, sec, f), h, m * MsPerMinute + sec * MsPerSecond + f);
  }

  /** From one day on, the "N day(s), " prefix puts a space in the hour field,
      so the output is no longer a SubRip timestamp. */
  lemma {:induction false} DayLongTimeUnreadable(ms: nat)
    requires ms >= MsPerDay
    ensures ParseSrtTime(MsToSrtTime(ms)) == None
  {
    var s := MsToSrtTime(ms);
    var d := ms / MsPerDay;
    var days := NatToString(d);
    var prefix := DayPrefix(d);
    var hc := HourClock(ms % MsPerDay / MsPerHour, ms % MsPerHour / MsPerMinute, ms % MsPerMinute / MsPerSecond);
    var zp := ZeroPad(ms % MsPerSecond, 3);
    assert s == prefix + hc + "," + zp by { MsToSrtTimeShape(ms); }
    assert |zp| == 3 by { ZeroPadWidth(ms % MsPerSecond, 3); }
    assert prefix == days + " day" + (if d != 1 then "s" else "") + ", ";
    assert |days| + 6 <= |prefix| && prefix[|days|] == ' ';
    assert s[|days|] == ' ';
    SpaceInHours(s, |days|);
  }

  /** A timestamp with a non-digit in its hour field does not parse. */
  lemma SpaceInHours(s: string, i: nat)
    requires i + 10 < |s| && s[i] == ' '
    ensures ParseSrtTime(s) == None
  {
    assert s[..|s| - 10][i] == ' ';
  }

  /** Two-digit padding of a single digit. */
  lemma PadDigit(d: nat)
    requires d < 10
    ensures ZeroPad(d, 2) == ['0', DigitChar(d)]
  {
    assert NatToString(d) == [DigitChar(d)];
    assert Zeros(1) == ['0'];
  }

  /** Below ten hours the hour is a single digit: the text is eleven
      characters long, not the twelve of a SubRip `HH:MM:SS,mmm`. */
  lemma OneDigitHour(ms: nat)
    requires ms < 10 * MsPerHour
    ensures var r := MsToSrtTime(ms);
            |r| == 11 && r[1] == ':' && r[4] == ':' && r[7] == ','
  {
    var h, m, sec, f := ms / MsPerHour, ms % MsPerHour / MsPerMinute, ms % MsPerMinute / MsPerSecond, ms % MsPerSecond;
    var hs, mz, sz, fz := NatToString(h), ZeroPad(m, 2), ZeroPad(sec, 2), ZeroPad(f, 3);
    assert MsToSrtTime(ms) == hs + ":" + mz + ":" + sz + "," + fz by {
      assert ClockText(ms) == HourClock(h, m, sec) by {
        assert ms / MsPerDay == 0 && ms % MsPerDay == ms;
        assert DayPrefix(0) == "";
      }
      MsToSrtTimeShape(ms);
    }
    assert |hs| == 1 && |mz| == 2 && |sz| == 2 && |fz| == 3 by {
      assert h < 10 && m < 60 && sec < 60 && f < 1000;
      NatToStringFits(h, 1);
      ZeroPadWidth(m, 2);
      ZeroPadWidth(sec, 2);
      ZeroPadWidth(f, 3);
    }
    Layout(hs, mz, sz, fz);
  }

  lemma Layout(hs: string, mz: string, sz: string, fz: string)
    requires |hs| == 1 && |mz| == 2 && |sz| == 2 && |fz| == 3
    ensures var r := hs + ":" + mz + ":" + sz + "," + fz;
            |r| == 11 && r[1] == ':' && r[4] == ':' && r[7] == ','
  {
  }

  /** Worked examples: the hours come out unpadded, and a whole second ends
      in ",000". */
  lemma MidnightExample(ms: nat)
    requires ms == 0
    ensures MsToSrtTime(ms) == "0:00:00,000"
  {
    assert MsToSrtTime(ms) == ClockText(ms) + "," + ZeroPad(ms % MsPerSecond, 3) by {
      MsToSrtTimeShape(ms);
    }
    MidnightClock(ms);
    assert "0:00:00" + "," + "000" == "0:00:00,000";
  }

  lemma MidnightClock(ms: nat)
    requires ms == 0
    ensures ClockText(ms) == "0:00:00" && ZeroPad(ms % MsPerSecond, 3) == "000"
  {
    PaddedZero(ms);
    assert ClockText(ms) == Clock(ms, ms, ms, ms) by {
      DivModUnique(ms, MsPerDay, 0, 0);
      DivModUnique(ms, MsPerHour, 0, 0);
      DivModUnique(ms, MsPerMinute, 0, 0);
      DivModUnique(ms, MsPerSecond, 0, 0);
    }
    assert HourClock(ms, ms, ms) == "0:00:00" by {
      assert ZeroPad(ms, 2) == "00" by { PadDigit(ms); }
      assert NatToString(ms) == "0";
    }
    assert DayPrefix(ms) == "";
  }

  lemma HourMinuteSecondExample(ms: nat)
    requires ms == 3661000
    ensures MsToSrtTime(ms) == "1:01:01,000"
  {
    HourMinuteSecondClock(ms);
    MsToSrtTimeShape(ms);
  }

  lemma HourMinuteSecondClock(ms: nat)
    requires ms == 3661000
    ensures ClockText(ms) == "1:01:01" && ZeroPad(ms % MsPerSecond, 3) == "000"
  {
    PaddedZero(ms % MsPerSecond);
    var z, one := ms / MsPerDay, ms / MsPerHour;
    assert z == 0 && one == 1;
    assert ClockText(ms) == Clock(z, one, one, one) by {
      assert ms % MsPerDay / MsPerHour == one;
      assert ms % MsPerHour / MsPerMinute == one;
      assert ms % MsPerMinute / MsPerSecond == one;
    }
    assert ZeroPad(one, 2) == "01" by { PadDigit(one); }
    assert NatToString(one) == "1";
    assert DayPrefix(z) == "";
    assert HourClock(one, one, one) == "1:01:01";
  }
}
