/**
 * The session statistics written at the end of a pass (service.py,
 * `save_session_stats`): durations, zero-guarded percentages and the rendered
 * posture timeline.
 */
module SessionReport {
  import opened Text
  import opened TimeFormat
  import opened PostureStream

  /** One entry of `posture_timestamps`: the formatted time and the new posture. */
  datatype TimelineEntry = TimelineEntry(time: string, posture: Posture)

  /** The entry recorded for a change: its frame's time, `frame / fps` seconds, formatted. */
  function EntryOf(c: Change, fps: int): TimelineEntry
    requires fps > 0
  {
    TimelineEntry(FormatTimestamp(FrameTime(c.frame, fps)), c.posture)
  }

  /** The entries recorded for a list of changes, in order. */
  function Timeline(cs: seq<Change>, fps: int): (es: seq<TimelineEntry>)
    requires fps > 0
    ensures |es| == |cs|
  {
    seq(|cs|, i requires 0 <= i < |cs| => EntryOf(cs[i], fps))
  }

  lemma TimelineSnoc(cs: seq<Change>, c: Change, fps: int)
    requires fps > 0
    ensures Timeline(cs + [c], fps) == Timeline(cs, fps) + [EntryOf(c, fps)]
  {
  }

  /**
   * At more than one frame per second the first frame of a pass is read within the
   * first second, so an entry made for it reads "00:00".
   */
  lemma FirstFrameReadsZero(fps: int)
    requires fps > 1
    ensures EntryOf(Change(1, Good), fps).time == "00:00"
  {
    var t := 1 as real / fps as real;
    FloorOfFrameTime(1, fps);
    var c := SplitSeconds(t);
    assert c.hours == 0 && c.minutes == 0 && c.seconds == 0;
    assert ZeroPad2(0) == "00";
  }

  /** `part / total * 100`, or 0 when nothing was classified. */
  function Percentage(part: nat, total: nat): (p: real)
    ensures total == 0 ==> p == 0.0
    ensures part <= total ==> 0.0 <= p <= 100.0
    ensures total > 0 ==> p * total as real == part as real * 100.0
  {
    if total > 0 then part as real / total as real * 100.0 else 0.0
  }

  /** When good and bad frames are at most all frames, their percentages add up to at most 100. */
  lemma PercentagesBounded(good: nat, bad: nat, total: nat)
    requires good + bad <= total
    ensures 0.0 <= Percentage(good, total) + Percentage(bad, total) <= 100.0
  {
    if total > 0 {
      var t := total as real;
      assert Percentage(good, total) + Percentage(bad, total) == (good + bad) as real / t * 100.0;
      QuotientAtMostOne((good + bad) as real, t);
    }
  }

  lemma QuotientAtMostOne(x: real, t: real)
    requires 0.0 <= x <= t && t > 0.0
    ensures 0.0 <= x / t <= 1.0
  {
    assert (x / t) * t == x;
  }

  /** The line that opens a timeline entry. */
  function BeginsLine(e: TimelineEntry): string {
    e.time + ": " + PostureName(e.posture) + " posture begins"
  }

  /** The line written after an entry that has a successor: the successor's time. */
  function DurationLine(next: TimelineEntry): string {
    "Duration: " + next.time
  }

  /**
   * The timeline block of the report: each entry's "begins" line, followed by a
   * "Duration:" line with the next entry's time for every entry but the last, so
   * `n` entries give `n` "begins" lines and `n - 1` "Duration:" lines.
   */
  ghost predicate TimelineText(lines: seq<string>, entries: seq<TimelineEntry>) {
    && |lines| == (if entries == [] then 0 else 2 * |entries| - 1)
    && (forall i :: 0 <= i < |entries| ==> lines[2 * i] == BeginsLine(entries[i]))
    && (forall i :: 0 <= i < |entries| - 1 ==> lines[2 * i + 1] == DurationLine(entries[i + 1]))
  }

  /** The rendering loop of `save_session_stats`. */
  method RenderTimeline(entries: seq<TimelineEntry>) returns (lines: seq<string>)
    ensures TimelineText(lines, entries)
  {
    lines := [];
    for i := 0 to |entries|
      invariant |lines| == if i == 0 then 0 else if i < |entries| then 2 * i else 2 * i - 1
      invariant forall j :: 0 <= j < i ==> lines[2 * j] == BeginsLine(entries[j])
      invariant forall j :: 0 <= j < i && j < |entries| - 1 ==> lines[2 * j + 1] == DurationLine(entries[j + 1])
    {
      lines := lines + [BeginsLine(entries[i])];
      if i < |entries| - 1 {
        var nextTime := entries[i + 1].time;
        lines := lines + ["Duration: " + nextTime];
      }
    }
  }

  /** The "Time Analysis" and "Posture Timeline" parts of the statistics file. */
  datatype SessionStats = SessionStats(
    videoSource: string,
    totalDuration: string,
    goodDuration: string,
    goodPercentage: real,
    badDuration: string,
    badPercentage: real,
    timelineLines: seq<string>)
}
