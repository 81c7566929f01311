/**
 * The posture detection session (service.py, class `PostureDetectionApp`): the
 * statistics fields it accumulates, the frame loop of `process_video` that feeds
 * them, the speed-up step that precedes it, and `save_session_stats`.
 */
module Service {
  import opened Wrappers
  import opened TimeFormat
  import opened PostureStream
  import opened SessionReport
  import VideoProcessor

  /** The classifier's verdict on each frame of a stream, in order. */
  function Classify<F>(frames: seq<F>, classify: F -> Detection): (ds: seq<Detection>)
    ensures |ds| == |frames|
  {
    seq(|frames|, i requires 0 <= i < |frames| => classify(frames[i]))
  }

  /** The progress line is printed, dividing by the reported frame count, every this many frames. */
  const ProgressInterval: nat := 30

  /**
   * How many of `n` frames one pass counts: all of them, unless the reported frame
   * count is 0 and the stream reaches frame `ProgressInterval`, whose progress line
   * divides by zero before the frame is classified.
   */
  function FramesRead(n: nat, reportedFrames: int): (k: nat)
    ensures k <= n
    ensures k < n <==> reportedFrames == 0 && n >= ProgressInterval
    ensures reportedFrames == 0 ==> k < ProgressInterval
    ensures reportedFrames == 0 && n >= ProgressInterval ==> k == ProgressInterval - 1
  {
    if reportedFrames == 0 && n >= ProgressInterval then ProgressInterval - 1 else n
  }

  /** The statistics a session accumulates: classified, good and bad frames, and the timeline. */
  datatype Tally = Tally(total: nat, good: nat, bad: nat, timeline: seq<TimelineEntry>)

  class PostureDetectionApp {
    var videoPath: string
    var goodPostureFrames: nat
    var badPostureFrames: nat
    var totalFrames: nat
    var postureTimestamps: seq<TimelineEntry>
    // Initialised here but never written again: the frame loop keeps its own
    // local streak counter, activity flag and current posture under these names.
    var badPostureCounter: nat
    var isBadPostureActive: bool
    var currentPosture: Option<Posture>

    /** The statistics invariant: good and bad frames, and timeline entries, never outnumber classified frames. */
    ghost predicate Valid()
      reads this
    {
      goodPostureFrames + badPostureFrames <= totalFrames && |postureTimestamps| <= totalFrames
    }

    constructor (videoPath: string)
      ensures Valid() && this.videoPath == videoPath
      ensures goodPostureFrames == 0 && badPostureFrames == 0 && totalFrames == 0
      ensures postureTimestamps == []
      ensures badPostureCounter == 0 && !isBadPostureActive && currentPosture == None
    {
      this.videoPath := videoPath;
      goodPostureFrames, badPostureFrames, totalFrames := 0, 0, 0;
      badPostureCounter := 0;
      isBadPostureActive := false;
      postureTimestamps := [];
      currentPosture := None;
    }

    /** The statistics fields, as a value. */
    ghost function Snapshot(): Tally
      reads this
    {
      Tally(totalFrames, goodPostureFrames, badPostureFrames, postureTimestamps)
    }

    /**
     * The statistics fields hold `base` plus what the stream state `r` has counted:
     * its classified, good and bad frames, and one timeline entry per posture change.
     */
    ghost predicate Extends(base: Tally, r: StreamState, fps: int)
      requires fps > 0
      reads this
    {
      && totalFrames == base.total + r.total
      && goodPostureFrames == base.good + r.good
      && badPostureFrames == base.bad + r.bad
      && postureTimestamps == base.timeline + Timeline(r.changes, fps)
    }

    /**
     * The read loop of `process_video`, given the classifier's verdict on each frame
     * read and the frame count the capture reports. The counters and the timeline
     * grow by what `Run` computes from a fresh start over the frames read (they are
     * not reset first), the other fields stay as they were. Every `ProgressInterval`
     * frames the progress line divides by the reported count, so when that count is 0
     * the loop stops with a division by zero as it reaches frame `ProgressInterval`,
     * after the frames before it have been counted.
     */
    method ProcessFrames(detections: seq<Detection>, fps: int, reportedFrames: int)
      returns (completed: bool)
      requires Valid() && fps > 0
      modifies this`totalFrames, this`goodPostureFrames, this`badPostureFrames, this`postureTimestamps
      ensures Valid()
      ensures completed <==> !(reportedFrames == 0 && |detections| >= ProgressInterval)
      ensures var r := Run(Start, detections[..FramesRead(|detections|, reportedFrames)]);
        && totalFrames == old(totalFrames) + r.total
        && goodPostureFrames == old(goodPostureFrames) + r.good
        && badPostureFrames == old(badPostureFrames) + r.bad
        && postureTimestamps == old(postureTimestamps) + Timeline(r.changes, fps)
    {
      ghost var base := Snapshot();
      var frameCount: nat := 0;
      var badPostureCounter: nat := 0;
      var isBadPostureActive := false;  // assigned below, never read
      var currentPosture: Option<Posture> := None;
      ghost var r := Start;
      while frameCount < |detections|
        invariant frameCount <= |detections|
        invariant reportedFrames == 0 ==> frameCount < ProgressInterval
        invariant r == Run(Start, detections[..frameCount])
        invariant r.frameCount == frameCount && r.badCounter == badPostureCounter
        invariant r.current == currentPosture
        invariant Extends(base, r, fps)
      {
        if (frameCount + 1) % ProgressInterval == 0 && reportedFrames == 0 {
          // The progress line divides by the reported frame count.
          PassBounds(detections[..frameCount]);
          return false;
        }
        var detection := detections[frameCount];
        assert detections[..frameCount + 1] == detections[..frameCount] + [detection];
        RunSnoc(Start, detections[..frameCount], detection);
        frameCount := frameCount + 1;
        badPostureCounter, isBadPostureActive, currentPosture :=
          ReadFrame(detection, frameCount, fps, badPostureCounter, isBadPostureActive,
                    currentPosture, base, r);
        r := Step(r, detection);
      }
      assert detections[..frameCount] == detections;
      PassBounds(detections);
      completed := true;
    }

    /**
     * The body of the read loop for frame number `frameCount`, given the classifier's
     * verdict on it. A frame with a detection is counted, records a timeline entry
     * when its label differs from the current one, and extends or resets the bad
     * streak, counting as bad only once the streak has reached the threshold; a frame
     * without one changes nothing. It does what `Step` does to the stream state `s`
     * the loop has reached; the activity flag is set once the streak reaches the
     * threshold and cleared by a good frame.
     */
    method ReadFrame(detection: Detection, frameCount: nat, fps: int, badPostureCounter: nat,
                     isBadPostureActive: bool, currentPosture: Option<Posture>,
                     ghost base: Tally, ghost s: StreamState)
      returns (newCounter: nat, newActive: bool, newCurrent: Option<Posture>)
      requires fps > 0 && Extends(base, s, fps)
      requires frameCount == s.frameCount + 1
      requires badPostureCounter == s.badCounter && currentPosture == s.current
      modifies this`totalFrames, this`goodPostureFrames, this`badPostureFrames, this`postureTimestamps
      ensures var t := Step(s, detection);
        && Extends(base, t, fps)
        && newCounter == t.badCounter && newCurrent == t.current
      ensures newActive == match detection
        case None => isBadPostureActive
        case Some(className) =>
          if className != 1 then false else isBadPostureActive || newCounter >= BadPostureThreshold
    {
      newCounter, newActive, newCurrent := badPostureCounter, isBadPostureActive, currentPosture;
      if detection.None? {
        UndetectedFrameChangesNothing(s);
        return;
      }
      var className := detection.value;
      StepDetected(s, className);
      totalFrames := totalFrames + 1;
      var newPosture := if className == 1 then Bad else Good;
      newCurrent := NotePosture(newPosture, frameCount, fps, currentPosture, base.timeline, s.changes);
      if className == 1 {
        newCounter := badPostureCounter + 1;
        if newCounter >= BadPostureThreshold {
          newActive := true;
          badPostureFrames := badPostureFrames + 1;
        }
      } else {
        newCounter := 0;
        newActive := false;
        goodPostureFrames := goodPostureFrames + 1;
      }
    }

    /**
     * The timeline update of the read loop: at frame number `frameCount`, a label that
     * differs from the current posture appends an entry stamped with the frame's time,
     * and becomes the current posture.
     */
    method NotePosture(newPosture: Posture, frameCount: nat, fps: int, currentPosture: Option<Posture>,
                       ghost base: seq<TimelineEntry>, ghost changes: seq<Change>)
      returns (newCurrent: Option<Posture>)
      requires fps > 0 && postureTimestamps == base + Timeline(changes, fps)
      modifies this`postureTimestamps
      ensures newCurrent == Some(newPosture)
      ensures postureTimestamps == base + Timeline(
        if Some(newPosture) != currentPosture then changes + [Change(frameCount, newPosture)] else changes, fps)
    {
      var currentTime := FrameTime(frameCount, fps);
      newCurrent := currentPosture;
      if Some(newPosture) != currentPosture {
        var timestamp := FormatTimestamp(currentTime);
        postureTimestamps := postureTimestamps + [TimelineEntry(timestamp, newPosture)];
        newCurrent := Some(newPosture);
        TimelineSnoc(changes, Change(frameCount, newPosture), fps);
      }
    }

    /**
     * The statistics of `save_session_stats` for the current fields: the durations
     * of all, good and bad frames at `fps`, the zero-guarded percentages, and the
     * rendered timeline.
     */
    method SaveSessionStats(fps: int) returns (stats: SessionStats)
      requires Valid() && fps > 0
      ensures stats.videoSource == videoPath
      ensures stats.totalDuration == FramesToTime(totalFrames, fps)
      ensures stats.goodDuration == FramesToTime(goodPostureFrames, fps)
      ensures stats.badDuration == FramesToTime(badPostureFrames, fps)
      ensures stats.goodPercentage == Percentage(goodPostureFrames, totalFrames)
      ensures stats.badPercentage == Percentage(badPostureFrames, totalFrames)
      ensures 0.0 <= stats.goodPercentage + stats.badPercentage <= 100.0
      ensures TimelineText(stats.timelineLines, postureTimestamps)
    {
      var goodPercentage := Percentage(goodPostureFrames, totalFrames);
      var badPercentage := Percentage(badPostureFrames, totalFrames);
      PercentagesBounded(goodPostureFrames, badPostureFrames, totalFrames);
      var totalTime := FramesToTime(totalFrames, fps);
      var goodPostureTime := FramesToTime(goodPostureFrames, fps);
      var badPostureTime := FramesToTime(badPostureFrames, fps);
      var lines := RenderTimeline(postureTimestamps);
      stats := SessionStats(videoPath, totalTime, goodPostureTime, goodPercentage,
                            badPostureTime, badPercentage, lines);
    }

    /**
     * `process_video` end to end: a long video is first decimated and the session
     * then follows the decimated stream (the re-encoded file keeps the source fps and
     * reports the number of frames written); every frame of that stream is classified
     * and fed through the frame loop, and the statistics are produced from the updated
     * fields. When the loop stops on a zero reported frame count, no statistics are
     * produced (`None`), but the frames counted before stay in the fields.
     */
    method ProcessVideo<F>(frames: seq<F>, fps: int, frameCount: int, classify: F -> Detection)
      returns (stats: Option<SessionStats>)
      requires Valid() && fps > 0
      modifies this`videoPath, this`totalFrames, this`goodPostureFrames, this`badPostureFrames,
        this`postureTimestamps
      ensures Valid()
      ensures var m := VideoProcessor.SpeedMultiplier(FrameTime(frameCount, fps));
        var stream := if m > 1 then VideoProcessor.EveryNth(frames, m) else frames;
        var ds := Classify(stream, classify);
        var reported := if m > 1 then |stream| else frameCount;
        var r := Run(Start, ds[..FramesRead(|ds|, reported)]);
        && videoPath == (if m > 1 then VideoProcessor.OutputPath(old(videoPath)) else old(videoPath))
        && (stats.None? <==> reported == 0 && |ds| >= ProgressInterval)
        && totalFrames == old(totalFrames) + r.total
        && goodPostureFrames == old(goodPostureFrames) + r.good
        && badPostureFrames == old(badPostureFrames) + r.bad
        && postureTimestamps == old(postureTimestamps) + Timeline(r.changes, fps)
      ensures stats.Some? ==>
        && stats.value.videoSource == videoPath
        && stats.value.goodPercentage == Percentage(goodPostureFrames, totalFrames)
        && stats.value.badPercentage == Percentage(badPostureFrames, totalFrames)
        && TimelineText(stats.value.timelineLines, postureTimestamps)
    {
      var videoInfo := VideoProcessor.GetVideoInfo(fps, frameCount);
      var stream := frames;
      var reported := frameCount;
      if videoInfo.isLong {
        var processedPath, written := VideoProcessor.ProcessVideo(videoPath, fps, frameCount, frames);
        videoPath := processedPath;
        stream := written;
        reported := |written|;
      }
      var completed := ProcessFrames(Classify(stream, classify), fps, reported);
      if !completed {
        return None;
      }
      var report := SaveSessionStats(fps);
      stats := Some(report);
    }
  }

  /**
   * A 90-second video at 30 fps in which every frame shows good posture is sped up
   * twice, its 1350 remaining frames all count as good, none as bad, and the
   * timeline holds the single entry "00:00", Good.
   */
  lemma NinetySecondsAllGood<F>(frames: seq<F>, classify: F -> Detection)
    requires |frames| == 2700
    requires forall f :: classify(f).Some? && classify(f).value != 1
    ensures VideoProcessor.SpeedMultiplier(FrameTime(2700, 30)) == 2
    ensures var r := Run(Start, Classify(VideoProcessor.EveryNth(frames, 2), classify));
      r.total == 1350 && r.good == 1350 && r.bad == 0
      && Timeline(r.changes, 30) == [TimelineEntry("00:00", Good)]
  {
    var kept := VideoProcessor.EveryNth(frames, 2);
    VideoProcessor.EveryNthShape(frames, 2);
    assert |kept| == 1350;
    var ds := Classify(kept, classify);
    AllGoodPass(ds);
    FirstFrameReadsZero(30);
  }
}
