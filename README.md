# Sitting-posture session analysis, modelled in Dafny

The system takes an uploaded video of a person sitting. It classifies every frame
as good or bad posture with an object detector, and writes a statistics report:
how long the person sat well or badly, and a timeline of posture changes. This
project models its deterministic core and proves properties about it:

- **Upload check** (`main.py`, `allowed_file`): a file is accepted when the text
  after its last `.` lower-cases to `mp4` (upload.dfy, with the string built-ins in
  text.dfy).
- **Speed policy and decimator** (`load_video.py`, `VideoProcessor`). Videos longer
  than a minute are sped up 2x, 3x or 4x. The speed-up re-encodes the video keeping
  frame `i` exactly when `i % m == 0`, at the same frame rate
  (video_processor.dfy).
- **Per-frame posture logic** (`service.py`, the read loop of `process_video`):
  - A pure state machine `Step` / `Run` over the classifier's per-frame output
    (posture_stream.dfy). It counts classified frames, good frames and bad frames.
    Bad frames count only once 200 bad frames have come in a row.
  - It records a timeline change whenever a frame's label differs from the current
    posture.
- **The class `PostureDetectionApp`** (service.dfy): its statistics fields and the
  loop that updates them in place. The loop is proved to agree with `Run`.
  `process_video` is modelled end to end, and so is `save_session_stats`: clock
  formats in time_format.dfy, percentages and timeline rendering in
  session_report.dfy.

Python's float `//` and `%` are modelled exactly on `real`: the floor of the
quotient, and `s - d * floor(s / d)`. The classifier is a function parameter from
frames to `Option<int>`. `None` stands for a frame without a bounding box.

Three quirks of the source are kept:

- The streak counter, the activity flag and the current posture are locals of the
  loop. They shadow three fields of the same name, which stay as the constructor
  set them.
- The statistics fields are not reset between passes. `ProcessFrames` therefore
  adds to whatever the fields held before.
- Every 30 frames the progress line divides by the frame count the capture
  reports. When that count is 0, the loop stops with a division by zero on
  frame 30: the 29 frames before it stay counted and no report is written.

## Model

| member | source | states |
|---|---|---|
| Upload.NoDotRejected | main.py:46-47 | a filename without '.' is never accepted |
| Upload.AcceptedIffLastExtensionIsMp4 | main.py:46-48 | for `stem + "." + ext` with no '.' in `ext`, accepted exactly when `ext` lower-cases to "mp4"; only the last extension counts |
| Upload.AllowedFileAcceptsExamples | main.py:46-48 | "clip.MP4", "a.txt.mp4" and ".mp4" are accepted |
| Upload.AllowedFileRejectsExamples | main.py:46-48 | "a.mp4.txt" and "video." (empty extension) are refused |
| Text.RSplitOnce | main.py:48 | `rsplit(sep, 1)`: the whole string when `sep` is absent, otherwise the parts before and after the last `sep`, which rejoin to the input |
| Text.RSplitOnceUnique | load_video.py:50 | splitting `stem + sep + tail`, with no `sep` in `tail`, gives exactly `stem` and `tail` |
| Text.NatToStringRoundTrip | service.py:184-188 | `str(n)` reads back as `n` |
| Text.ZeroPad2 | service.py:39-40 | `{n:02d}` is all digits, denotes `n`, has at least two characters, exactly two iff `n < 100`, and no leading zero from 10 on |
| VideoProcessor.SpeedMultiplier | load_video.py:12-23 | the multiplier is always 1, 2, 3 or 4 |
| VideoProcessor.SpeedMultiplierMonotone | load_video.py:16-23 | a longer video is never sped up less |
| VideoProcessor.SpeedMultiplierBrackets | load_video.py:16-23 | each bracket includes its upper bound: up to 60 s gives 1, up to 120 s gives 2, up to 300 s gives 3, beyond gives 4 |
| VideoProcessor.EveryNthShape | load_video.py:56-68 | decimating `N` frames by `m` keeps `ceil(N/m)` frames, and the `k`-th kept frame is source frame `k*m`, so frame 0 comes first |
| VideoProcessor.Decimate | load_video.py:56-68 | the read loop appends to the writer exactly the frames with `i % m == 0`, in order |
| VideoProcessor.VideoWriter.Write | load_video.py:66 | writing appends one frame to the output |
| VideoProcessor.OutputPathReplacesLastExtension | load_video.py:50 | the output path replaces only the last extension by `_processed.mp4`; a path without '.' is kept whole |
| VideoProcessor.ProcessVideo | load_video.py:25-73 | multiplier 1 returns the input path and writes nothing; otherwise it writes every m-th frame, `ceil(N/m)` of them, under the derived output path |
| VideoProcessor.GetVideoInfo | load_video.py:80-95 | `is_long` holds iff the duration exceeds 60 s iff the multiplier exceeds 1; the multiplier is the speed policy's for the duration `frame_count / fps` |
| TimeFormat.Mod | service.py:36-37 | Python's float `%` with a positive divisor lies in `[0, d)` |
| TimeFormat.SplitSeconds | service.py:35-37 | minutes and seconds lie in `[0, 60)`; hours are positive iff the time reaches an hour; for a non-negative time the parts add back up to its whole seconds |
| TimeFormat.FormatTimestamp | service.py:34-40 | `MM:SS` (five characters) below an hour, `HH:MM:SS` from an hour on |
| TimeFormat.FormatTimestampReadsBack | service.py:34-40 | every field is zero-padded decimal; minutes and seconds are below 60; shown hours are at least 1, take exactly two digits below 100 and have no leading zero from 10 on; the fields read back to the whole seconds |
| TimeFormat.FramesToTime | service.py:177-188 | the rendering ends in "s"; it shows hours iff the time reaches an hour and minutes iff it reaches a minute |
| TimeFormat.FramesToTimeUnderAMinute | service.py:177-188 | under a minute the rendering is `str(frames // fps) + "s"` |
| PostureStream.UndetectedFrameChangesNothing | service.py:85-97 | a frame without a detection only advances the frame number |
| PostureStream.GoodFrameResetsStreak | service.py:98-124 | a good frame resets the streak, counts once as good and once in total, never as bad |
| PostureStream.BadFrameExtendsStreak | service.py:111-115 | a bad frame extends the streak and counts as bad exactly when the streak reaches 200 |
| PostureStream.BadStreak | service.py:111-115 | `k` bad frames in a row add `max(0, c+k-199) - max(0, c-199)` bad frames, for a streak that stood at `c` |
| PostureStream.WarningZone | service.py:111-124 | from a clear streak, 199 bad frames followed by a good frame add no bad frame; the 200th bad frame is the first counted |
| PostureStream.StepConsistent | service.py:97-124 | one frame preserves the loop invariant: good plus bad at most total, changes at increasing frames already read, alternating postures, the current posture equal to the last change, and a streak running iff the posture is bad |
| PostureStream.RunConsistent | service.py:79-126 | the invariant holds after any stream, and the frame number counts every frame read |
| PostureStream.PassBounds | service.py:97-124 | after one pass, good plus bad is at most total, total at most the frames read, and the timeline at most total |
| PostureStream.RunAppend | service.py:79-126 | reading a stream in two parts is reading it whole |
| PostureStream.RunKeepsCounted | service.py:79-126 | two states that have counted the same (streak, current posture, counts, timeline postures) go on counting the same over any stream, whatever their frame numbers |
| PostureStream.UndetectedFrameAnywhere | service.py:84-97 | a frame without a detection, anywhere in a stream, changes no count, streak, current posture or timeline posture; it only delays later frame numbers by one |
| PostureStream.CompressShape | service.py:103-109 | the collapsed label list has one entry plus one per boundary, and neighbouring entries differ |
| PostureStream.TimelineIsCompressedLabels | service.py:100-109 | the timeline's postures are the classified labels with runs collapsed; the first classified frame always adds an entry and undetected frames do not matter |
| PostureStream.TimelineLength | service.py:100-109 | the timeline has one entry per label boundary plus one for the first classified frame, and neighbouring entries alternate |
| PostureStream.ChangesMarkTheirFrames | service.py:85-105 | each change sits at the 1-based number, counted over all frames read, of the frame that caused it, and carries that frame's label; no frame before the first change is classified, and every classified frame up to the next change carries the change's label, so a change marks the first frame of each run |
| PostureStream.RunCounts | service.py:97-124 | total counts every classified frame and good counts every good-labelled one |
| PostureStream.AllGoodPass | service.py:97-124 | an all-good stream counts every frame as good, none as bad, and records one change at frame 1 |
| PostureStream.AnnotationAgreesWithCounts | service.py:111-126 | the drawn colour is red iff the frame counts as bad, green iff it counts as good, and orange iff it counts as neither |
| SessionReport.TimelineSnoc | service.py:103-107 | recording a change appends its formatted entry to the timeline |
| SessionReport.FirstFrameReadsZero | service.py:86-104 | above one frame per second, the entry of frame 1 reads "00:00" |
| SessionReport.Percentage | service.py:191-192 | 0 when nothing was classified; otherwise the value times the total is 100 times the part; within `[0, 100]` when the part is at most the total |
| SessionReport.PercentagesBounded | service.py:191-192 | the good and bad percentages add up to at most 100 |
| SessionReport.RenderTimeline | service.py:211-217 | `n` entries give `n` "begins" lines, each followed by a "Duration:" line with the next entry's time, except the last |
| Service.Classify | service.py:93-95 | one classifier verdict per frame |
| Service.PostureDetectionApp.constructor | service.py:9-31 | the counters start at zero, the timeline is empty, and the shadowed fields hold 0, false and None |
| Service.FramesRead | service.py:84-89 | all frames are counted, unless the reported frame count is 0 and the stream reaches frame 30, when only the 29 before it are |
| Service.PostureDetectionApp.ProcessFrames | service.py:74-126 | the loop adds `Run`'s total, good and bad counts over the frames it reads to the fields, and appends the formatted entries of `Run`'s changes to the timeline; it stops early exactly when the reported count is 0 and frame 30 is reached; no other field changes; the statistics invariant is kept |
| Service.PostureDetectionApp.ReadFrame | service.py:84-126 | one iteration does to the fields and locals what `Step` does to the stream state; the activity flag is set at the threshold and cleared by a good frame |
| Service.PostureDetectionApp.NotePosture | service.py:86-109 | a label that differs from the current posture appends an entry stamped with the frame's time and becomes the current posture |
| Service.PostureDetectionApp.SaveSessionStats | service.py:167-217 | durations via `frames_to_time`, zero-guarded percentages that add up to at most 100, and the rendered timeline |
| Service.PostureDetectionApp.ProcessVideo | service.py:42-160 | a long video is decimated and its path replaced; the session then counts `Run` over the classified (decimated) stream and reports on the updated fields; no report when the reported frame count is 0 and frame 30 is reached; the three shadowed fields never change |
| Service.NinetySecondsAllGood | service.py:42-126 | a 90-second, 30 fps all-good video is sped up twice; its 1350 frames all count as good and none as bad, and the timeline is the single entry "00:00", Good |

## Left out

- Video decoding, encoding and drawing (OpenCV capture, writer, rectangles, text) are I/O. Frames are an abstract type. The output writer of `load_video.py` is a class holding the written frames. The annotated-video writer of `service.py` is not modelled; `Annotate` gives the colour and status text drawn on each frame.
- The detector (`InferenceModel`, model.py): it is a foreign model. Its per-frame verdict is a function parameter. model.py is not part of this model.
- The Flask routes, file saving and cleanup, and model initialisation in main.py: HTTP and filesystem plumbing.
- Clocks and wall time: `time.time`, `datetime.now`, the processing time and date lines of the report, and the time-stamped file names. These are non-deterministic.
- The report file itself: the report is modelled as a value (`SessionStats`) holding the rendered parts.
- Console progress and status prints, which are output only. Of the progress line, only its division by a zero frame count is modelled.
- The frame count a re-encoded video reports is taken to be the number of frames written to it.
- Float rounding: durations, times and percentages are exact reals. The `.1f` and `.2f` formatting of percentages and confidences is not modelled.
- The `timedelta` strings `duration` and `processed_duration` of `get_video_info`.
- A frame rate of 0: the source divides by it without a guard, so every member taking `fps` requires `fps > 0`.
- `str.lower()` is modelled for ASCII letters only.
- The fps of the re-encoded video is taken to equal the source's, since the writer is opened with the source fps.
- TimeFormat.FramesToTime: the contract states which units appear, not the numbers. `FramesToTimeUnderAMinute` pins down the numbers below a minute only.
- Service.PostureDetectionApp.ProcessVideo: the contract states the statistics fields, the percentages and the timeline text. The durations are stated on `SaveSessionStats`.
- `main.py` calls the decimator itself and then starts a session on the decimated file, which checks the length again. That second pass belongs to the HTTP route and is not modelled.
- Alternation of the timeline holds within one call of `process_video`. The current posture restarts from none on every call while the timeline field persists, so two calls can leave equal neighbours at the seam.

Three consequences of the code that a reader might not expect:

- `frames_to_time` does not zero-pad its numbers (`FramesToTimeUnderAMinute`).
- The decimator accepts an empty video and writes no frame (`EveryNthShape` with `N = 0`).
- A streak of 251 bad frames adds 52 bad frames: the 200th to the 251st (`BadStreak`, with `Excess(251) = 52`).
