/**
 * The speed policy and the frame decimator (load_video.py, class `VideoProcessor`).
 * A video longer than a minute is re-encoded keeping every m-th frame, at the
 * same nominal frame rate, so that it plays m times faster.
 */
module VideoProcessor {
  import opened Text
  import opened TimeFormat

  /** The bracket bounds of the speed policy, in seconds. */
  const OneMinute: real := 60.0
  const TwoMinutes: real := 120.0
  const FiveMinutes: real := 300.0

  /** The decimation factor for a video of the given length: 1 up to a minute, then 2, 3 or 4. */
  function SpeedMultiplier(duration: real): (m: nat)
    ensures 1 <= m <= 4
  {
    if duration <= OneMinute then 1
    else if duration <= TwoMinutes then 2
    else if duration <= FiveMinutes then 3
    else 4
  }

  /** A longer video is never sped up less. */
  lemma SpeedMultiplierMonotone(shorter: real, longer: real)
    requires shorter <= longer
    ensures SpeedMultiplier(shorter) <= SpeedMultiplier(longer)
  {
  }

  /** Every bracket includes its upper bound. */
  lemma SpeedMultiplierBrackets(duration: real)
    ensures SpeedMultiplier(duration) == 1 <==> duration <= 60.0
    ensures SpeedMultiplier(duration) == 2 <==> 60.0 < duration <= 120.0
    ensures SpeedMultiplier(duration) == 3 <==> 120.0 < duration <= 300.0
    ensures SpeedMultiplier(duration) == 4 <==> 300.0 < duration
  {
  }

  /** The number of frames kept when keeping one frame in `m`: `ceil(n / m)`. */
  function CeilDiv(n: nat, m: nat): nat
    requires m >= 1
  {
    (n + m - 1) / m
  }

  /**
   * The frames the decimator keeps: frame `i` (counting from 0) is kept exactly
   * when `i % m == 0`, and kept frames stay in source order.
   */
  function EveryNth<F>(frames: seq<F>, m: nat): seq<F>
    requires m >= 1
  {
    if frames == [] then []
    else
      var last := |frames| - 1;
      EveryNth(frames[..last], m) + (if last % m == 0 then [frames[last]] else [])
  }

  lemma {:induction false} MulAtLeast(x: nat, m: nat)
    requires x >= 1
    ensures x * m >= m
  {
    if x > 1 {
      MulAtLeast(x - 1, m);
      assert x * m == (x - 1) * m + m;
    }
  }

  /** The only multiple of `m` strictly between `-m` and `m` is 0. */
  lemma SmallMultipleIsZero(x: int, m: nat)
    requires m >= 1 && -(m as int) < x * m < m
    ensures x == 0
  {
    if x >= 1 {
      MulAtLeast(x, m);
    } else if x <= -1 {
      assert (-x) * m == -(x * m);
      MulAtLeast(-x, m);
    }
  }

  /** Integer division is determined by the bracket the dividend falls in. */
  lemma DivInBracket(a: nat, m: nat, q: nat)
    requires m >= 1 && q * m <= a < q * m + m
    ensures a / m == q
  {
    var d, r := a / m, a % m;
    assert a == d * m + r && 0 <= r < m;
    assert (d - q) * m == d * m - q * m;
    SmallMultipleIsZero(d - q, m);
  }

  /** One more source frame adds one kept frame exactly when its index is a multiple of `m`. */
  lemma CeilDivStep(n: nat, m: nat)
    requires m >= 1
    ensures CeilDiv(n + 1, m) == CeilDiv(n, m) + (if n % m == 0 then 1 else 0)
    ensures n % m == 0 ==> CeilDiv(n, m) * m == n
  {
    var q, r := n / m, n % m;
    assert n == q * m + r;
    assert (q + 1) * m == q * m + m;
    if r == 0 {
      DivInBracket(n + m - 1, m, q);
      DivInBracket(n + m, m, q + 1);
    } else {
      DivInBracket(n + m - 1, m, q + 1);
      DivInBracket(n + m, m, q + 1);
    }
  }

  /**
   * Decimating `N` frames by `m` keeps `ceil(N / m)` frames, and the `k`-th kept frame
   * is source frame `k * m` (so the first kept frame is frame 0).
   */
  lemma {:induction false} EveryNthShape<F>(frames: seq<F>, m: nat)
    requires m >= 1
    ensures |EveryNth(frames, m)| == CeilDiv(|frames|, m)
    ensures forall k :: 0 <= k < |EveryNth(frames, m)| ==>
      k * m < |frames| && EveryNth(frames, m)[k] == frames[k * m]
  {
    if frames != [] {
      var last := |frames| - 1;
      var prefix := frames[..last];
      EveryNthShape(prefix, m);
      CeilDivStep(last, m);
      var kept := EveryNth(frames, m);
      forall k | 0 <= k < |kept|
        ensures k * m < |frames| && kept[k] == frames[k * m]
      {
        if k < |EveryNth(prefix, m)| {
          assert kept[k] == EveryNth(prefix, m)[k] == prefix[k * m];
        }
      }
    }
  }

  /** The stand-in for the output video writer: the frames written so far, in order. */
  class VideoWriter<F> {
    var written: seq<F>

    constructor ()
      ensures written == []
    {
      written := [];
    }

    method Write(frame: F)
      modifies this
      ensures written == old(written) + [frame]
    {
      written := written + [frame];
    }
  }

  /** The read loop of `process_video`: write frame `i` iff `i % m == 0`. */
  method Decimate<F>(frames: seq<F>, m: nat, out: VideoWriter<F>)
    requires m >= 1
    modifies out
    ensures out.written == old(out.written) + EveryNth(frames, m)
  {
    var frameCounter := 0;
    while frameCounter < |frames|
      invariant 0 <= frameCounter <= |frames|
      invariant out.written == old(out.written) + EveryNth(frames[..frameCounter], m)
    {
      assert frames[..frameCounter + 1][..frameCounter] == frames[..frameCounter];
      if frameCounter % m == 0 {
        out.Write(frames[frameCounter]);
      }
      frameCounter := frameCounter + 1;
    }
    assert frames[..frameCounter] == frames;
  }

  /** Where the re-encoded video goes: the input path up to its last '.', then "_processed.mp4". */
  function OutputPath(videoPath: string): string {
    RSplitOnce(videoPath, '.')[0] + "_processed.mp4"
  }

  /** A path without '.' keeps all of it; otherwise only the last extension is replaced. */
  lemma OutputPathReplacesLastExtension(stem: string, ext: string)
    requires '.' !in ext
    ensures OutputPath(stem + "." + ext) == stem + "_processed.mp4"
    ensures '.' !in stem ==> OutputPath(stem) == stem + "_processed.mp4"
  {
    RSplitOnceUnique(stem, '.', ext);
  }

  /**
   * `process_video`: with multiplier 1 the input path is returned and nothing is
   * written; otherwise every m-th frame is written to the derived output path.
   */
  method ProcessVideo<F>(videoPath: string, fps: int, frameCount: int, frames: seq<F>)
    returns (resultPath: string, written: seq<F>)
    requires fps > 0
    ensures var m := SpeedMultiplier(FrameTime(frameCount, fps));
      if m == 1 then resultPath == videoPath && written == []
      else (resultPath == OutputPath(videoPath) && written == EveryNth(frames, m)
        && |written| == CeilDiv(|frames|, m))
  {
    var duration := FrameTime(frameCount, fps);
    var speedMultiplier := SpeedMultiplier(duration);
    if speedMultiplier == 1 {
      return videoPath, [];
    }
    var outputPath := OutputPath(videoPath);
    var out := new VideoWriter();
    Decimate(frames, speedMultiplier, out);
    EveryNthShape(frames, speedMultiplier);
    return outputPath, out.written;
  }

  /** The fields of `get_video_info` that `process_video` uses. */
  datatype VideoInfo = VideoInfo(fps: int, frameCount: int, isLong: bool, speedMultiplier: nat)

  /** `get_video_info`: a video is long exactly when it would be sped up. */
  function GetVideoInfo(fps: int, frameCount: int): (info: VideoInfo)
    requires fps > 0
    ensures info.fps == fps && info.frameCount == frameCount
    ensures info.isLong <==> info.speedMultiplier > 1
    ensures info.isLong <==> FrameTime(frameCount, fps) > OneMinute
    ensures info.speedMultiplier == SpeedMultiplier(FrameTime(frameCount, fps))
  {
    var duration := FrameTime(frameCount, fps);
    VideoInfo(fps, frameCount, duration > OneMinute, SpeedMultiplier(duration))
  }
}
