/**
 * The two clock renderings of the session (service.py): `format_timestamp`, used for
 * timeline entries, and `frames_to_time`, used for the durations in the report.
 * Both split a number of seconds into hours, minutes and seconds the way Python's
 * float `//` and `%` do.
 */
module TimeFormat {
  import opened Text

  /** Python's `s // d` on floats, for a positive divisor: the floor of the quotient. */
  function FloorDiv(s: real, d: real): int
    requires d > 0.0
  {
    (s / d).Floor
  }

  /** Python's `s % d` on floats, for a positive divisor: never negative, below `d`. */
  function Mod(s: real, d: real): (r: real)
    requires d > 0.0
    ensures 0.0 <= r < d
  {
    ModBounds(s, d, FloorDiv(s, d));
    s - d * FloorDiv(s, d) as real
  }

  lemma ModBounds(s: real, d: real, f: int)
    requires d > 0.0 && f == (s / d).Floor
    ensures 0.0 <= s - d * f as real < d
  {
    var q := s / d;
    var x := q - f as real;
    assert 0.0 <= x < 1.0;
    ScaleBelowOne(d, x);
    assert d * q == s;
    assert s - d * f as real == d * x;
  }

  lemma ScaleBelowOne(d: real, x: real)
    requires d > 0.0 && 0.0 <= x < 1.0
    ensures 0.0 <= d * x < d
  {
    assert d - d * x == d * (1.0 - x);
  }

  datatype Clock = Clock(hours: int, minutes: int, seconds: int)

  /**
   * `hours = int(s // 3600)`, `minutes = int((s % 3600) // 60)`, `seconds = int(s % 60)`.
   * Minutes and seconds are always in range; for a non-negative time the three
   * components add back up to its whole seconds.
   */
  function SplitSeconds(s: real): (c: Clock)
    ensures 0 <= c.minutes < 60 && 0 <= c.seconds < 60
    ensures c.hours > 0 <==> s >= 3600.0
    ensures c.hours == 0 && c.minutes == 0 <==> 0.0 <= s < 60.0
    ensures s >= 0.0 ==> c.hours >= 0 && c.hours * 3600 + c.minutes * 60 + c.seconds == s.Floor
  {
    var hours := FloorDiv(s, 3600.0);
    var rest := Mod(s, 3600.0);
    var minutes := FloorDiv(rest, 60.0);
    var q := FloorDiv(s, 60.0);
    assert s == 3600.0 * hours as real + rest;
    assert 60.0 * minutes as real <= rest < 60.0 * minutes as real + 60.0;
    assert q == 60 * hours + minutes by {
      assert 60.0 * (60 * hours + minutes) as real <= s < 60.0 * (60 * hours + minutes) as real + 60.0;
    }
    Clock(hours, minutes, Mod(s, 60.0).Floor)
  }

  /**
   * `frames / fps` as Python's true division, on exact reals: the time in seconds
   * that `frames` frames take, or at which frame number `frames` is shown.
   */
  function FrameTime(frames: int, fps: int): real
    requires fps > 0
  {
    frames as real / fps as real
  }

  /** A whole number of frames at a whole frame rate: the quotient's floor is integer division. */
  lemma FloorOfFrameTime(frames: nat, fps: int)
    requires fps > 0
    ensures FrameTime(frames, fps).Floor == frames / fps
  {
    var q, r := frames / fps, frames % fps;
    assert frames == q * fps + r;
    assert frames as real == q as real * fps as real + r as real;
    assert frames as real / fps as real == q as real + r as real / fps as real;
  }

  /** A time of `frames` frames at `fps` reaches `k` seconds exactly when `frames >= k * fps`. */
  lemma FrameTimeAtLeast(frames: nat, fps: int, k: nat)
    requires fps > 0
    ensures FrameTime(frames, fps) >= k as real <==> frames >= k * fps
  {
    var t := frames as real / fps as real;
    assert t * fps as real == frames as real;
    assert (k * fps) as real == k as real * fps as real;
    if t >= k as real {
      assert t * fps as real >= k as real * fps as real;
    } else {
      assert t * fps as real < k as real * fps as real;
    }
  }

  /**
   * `format_timestamp`: `MM:SS` below an hour, `HH:MM:SS` from an hour on.
   */
  function FormatTimestamp(seconds: real): (r: string)
    ensures seconds < 3600.0 ==> |r| == 5 && r[2] == ':'
    ensures seconds >= 3600.0 ==> |r| >= 8 && r[|r| - 6] == ':' && r[|r| - 3] == ':'
  {
    var c := SplitSeconds(seconds);
    if c.hours > 0 then
      ZeroPad2(c.hours) + ":" + ZeroPad2(c.minutes) + ":" + ZeroPad2(c.seconds)
    else
      ZeroPad2(c.minutes) + ":" + ZeroPad2(c.seconds)
  }

  /**
   * Every field of a timestamp is zero-padded decimal (two digits for minutes and
   * seconds, at least two for hours), minutes and seconds are below 60, hours (when
   * shown) are at least 1, and reading the fields back gives the whole seconds of a
   * non-negative time.
   */
  lemma FormatTimestampReadsBack(seconds: real)
    requires seconds >= 0.0
    ensures var r := FormatTimestamp(seconds);
      if seconds < 3600.0 then
        AllDigits(r[..2]) && AllDigits(r[3..])
        && DigitsValue(r[..2]) < 60 && DigitsValue(r[3..]) < 60
        && DigitsValue(r[..2]) * 60 + DigitsValue(r[3..]) == seconds.Floor
      else
        AllDigits(r[..|r| - 6]) && AllDigits(r[|r| - 5..|r| - 3]) && AllDigits(r[|r| - 2..])
        && DigitsValue(r[..|r| - 6]) >= 1
        && (|r| == 8 <==> DigitsValue(r[..|r| - 6]) < 100)
        && (DigitsValue(r[..|r| - 6]) >= 10 ==> r[0] != '0')
        && DigitsValue(r[|r| - 5..|r| - 3]) < 60 && DigitsValue(r[|r| - 2..]) < 60
        && DigitsValue(r[..|r| - 6]) * 3600 + DigitsValue(r[|r| - 5..|r| - 3]) * 60
          + DigitsValue(r[|r| - 2..]) == seconds.Floor
  {
    var c := SplitSeconds(seconds);
    var r := FormatTimestamp(seconds);
    if c.hours > 0 {
      assert r == ZeroPad2(c.hours) + ":" + ZeroPad2(c.minutes) + ":" + ZeroPad2(c.seconds);
      FieldsOfThree(c.hours, c.minutes, c.seconds);
      assert r[0] == ZeroPad2(c.hours)[0];
    } else {
      assert r == ZeroPad2(c.minutes) + ":" + ZeroPad2(c.seconds);
      FieldsOfTwo(c.minutes, c.seconds);
    }
  }

  /** The two fields of `MM:SS` read back as the minutes and seconds they render. */
  lemma FieldsOfTwo(minutes: nat, seconds: nat)
    requires minutes < 60 && seconds < 60
    ensures var r := ZeroPad2(minutes) + ":" + ZeroPad2(seconds);
      && AllDigits(r[..2]) && AllDigits(r[3..])
      && DigitsValue(r[..2]) == minutes && DigitsValue(r[3..]) == seconds
  {
    var mm, ss := ZeroPad2(minutes), ZeroPad2(seconds);
    var r := mm + ":" + ss;
    assert r[..2] == mm;
    assert r[3..] == ss;
  }

  /** The three fields of `HH:MM:SS` read back as the hours, minutes and seconds they render. */
  lemma FieldsOfThree(hours: nat, minutes: nat, seconds: nat)
    requires minutes < 60 && seconds < 60
    ensures var r := ZeroPad2(hours) + ":" + ZeroPad2(minutes) + ":" + ZeroPad2(seconds);
      && AllDigits(r[..|r| - 6]) && AllDigits(r[|r| - 5..|r| - 3]) && AllDigits(r[|r| - 2..])
      && DigitsValue(r[..|r| - 6]) == hours && DigitsValue(r[|r| - 5..|r| - 3]) == minutes
      && DigitsValue(r[|r| - 2..]) == seconds
  {
    var hh, mm, ss := ZeroPad2(hours), ZeroPad2(minutes), ZeroPad2(seconds);
    var r := hh + ":" + mm + ":" + ss;
    assert r[..|hh|] == hh;
    assert r[|r| - 5..|r| - 3] == mm;
    assert r[|r| - 2..] == ss;
  }

  /**
   * `frames_to_time`: the time `frameCount` frames take at `fps`, as `Hh Mm Ss`,
   * leaving out the hours when there are none, and the minutes too when the time
   * is under a minute.
   */
  function FramesToTime(frameCount: nat, fps: int): (r: string)
    requires fps > 0
    ensures |r| >= 2 && r[|r| - 1] == 's'
    ensures 'h' in r <==> frameCount >= 3600 * fps
    ensures 'm' in r <==> frameCount >= 60 * fps
  {
    var c := SplitSeconds(FrameTime(frameCount, fps));
    FrameTimeAtLeast(frameCount, fps, 3600);
    FrameTimeAtLeast(frameCount, fps, 60);
    FrameTimeAtLeast(frameCount, fps, 0);
    var m, s := NatToString(c.minutes), NatToString(c.seconds);
    NoUnitLetters(m);
    NoUnitLetters(s);
    if c.hours > 0 then
      var h := NatToString(c.hours);
      NoUnitLetters(h);
      h + "h " + m + "m " + s + "s"
    else if c.minutes > 0 then
      m + "m " + s + "s"
    else
      s + "s"
  }

  /** Under a minute, the rendering is the whole seconds `frameCount / fps` followed by "s". */
  lemma FramesToTimeUnderAMinute(frameCount: nat, fps: int)
    requires fps > 0 && frameCount < 60 * fps
    ensures FramesToTime(frameCount, fps) == NatToString(frameCount / fps) + "s"
  {
    FrameTimeAtLeast(frameCount, fps, 60);
    FrameTimeAtLeast(frameCount, fps, 0);
    FloorOfFrameTime(frameCount, fps);
  }

  /** Rendered numbers never contain the unit letters. */
  lemma NoUnitLetters(t: string)
    requires AllDigits(t)
    ensures 'h' !in t && 'm' !in t
  {
  }
}
