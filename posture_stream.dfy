/**
 * The per-frame logic of `PostureDetectionApp.process_video` (service.py), as a pure
 * state machine over the classifier's output. `Step` is one turn of the read loop,
 * `Run` a whole stream; the lemmas state the debouncing, counting and timeline
 * properties the report relies on. The class in service.dfy runs the loop itself
 * and is proved to agree with `Run`.
 */
module PostureStream {
  import opened Wrappers
  import opened Text

  /** Consecutive bad frames needed before bad frames start to be counted. */
  const BadPostureThreshold: nat := 200

  datatype Posture = Good | Bad

  /** The posture's name as the timeline prints it. */
  function PostureName(p: Posture): string {
    match p
    case Good => "Good"
    case Bad => "Bad"
  }

  /**
   * What the classifier reports for one frame: `None` when it found no subject
   * (no bounding box), otherwise the class id of the detection.
   */
  type Detection = Option<int>

  /** Class id 1 is bad posture; every other id reads as good posture. */
  function Label(classId: int): Posture {
    if classId == 1 then Bad else Good
  }

  /** A timeline entry before formatting: the (1-based) frame it was read at and the new label. */
  datatype Change = Change(frame: nat, posture: Posture)

  /**
   * The loop's locals `frame_count`, `bad_posture_counter` and `current_posture`, and
   * what one call has added so far to `total_frames`, `good_posture_frames`,
   * `bad_posture_frames` and `posture_timestamps`.
   */
  datatype StreamState = StreamState(
    frameCount: nat,
    badCounter: nat,
    current: Option<Posture>,
    total: nat,
    good: nat,
    bad: nat,
    changes: seq<Change>)

  /** The state at the top of the loop: nothing read, no posture yet. */
  const Start: StreamState := StreamState(0, 0, None, 0, 0, 0, [])

  /** One turn of the read loop, for a frame with the given detection. */
  function Step(s: StreamState, d: Detection): StreamState {
    var frame := s.frameCount + 1;
    if d.None? then s.(frameCount := frame)
    else
      var classId := d.value;
      var newPosture := Label(classId);
      var changed := Some(newPosture) != s.current;
      var changes := if changed then s.changes + [Change(frame, newPosture)] else s.changes;
      var current := if changed then Some(newPosture) else s.current;
      if classId == 1 then
        var counter := s.badCounter + 1;
        var bad := if counter >= BadPostureThreshold then s.bad + 1 else s.bad;
        StreamState(frame, counter, current, s.total + 1, s.good, bad, changes)
      else
        StreamState(frame, 0, current, s.total + 1, s.good + 1, s.bad, changes)
  }

  /** A frame with a detection: what `Step` does, field by field. */
  lemma StepDetected(s: StreamState, classId: int)
    ensures var t := Step(s, Some(classId));
      var changed := Some(Label(classId)) != s.current;
      && t.frameCount == s.frameCount + 1 && t.total == s.total + 1
      && t.current == Some(Label(classId))
      && t.changes == (if changed then s.changes + [Change(s.frameCount + 1, Label(classId))] else s.changes)
      && t.badCounter == (if classId == 1 then s.badCounter + 1 else 0)
      && t.good == (if classId == 1 then s.good else s.good + 1)
      && t.bad == (if classId == 1 && s.badCounter + 1 >= BadPostureThreshold then s.bad + 1 else s.bad)
  {
  }

  /** The state after reading every frame of `ds`, in order, from `s`. */
  function Run(s: StreamState, ds: seq<Detection>): StreamState {
    if ds == [] then s else Step(Run(s, ds[..|ds| - 1]), ds[|ds| - 1])
  }

  lemma RunSnoc(s: StreamState, ds: seq<Detection>, d: Detection)
    ensures Run(s, ds + [d]) == Step(Run(s, ds), d)
  {
    assert (ds + [d])[..|ds|] == ds;
  }

  /** Reading a stream in two parts is reading it whole. */
  lemma {:induction false} RunAppend(s: StreamState, xs: seq<Detection>, ys: seq<Detection>)
    ensures Run(s, xs + ys) == Run(Run(s, xs), ys)
  {
    if ys == [] {
      assert xs + ys == xs;
    } else {
      var init := ys[..|ys| - 1];
      assert xs + ys == (xs + init) + [ys[|ys| - 1]];
      RunSnoc(s, xs + init, ys[|ys| - 1]);
      RunAppend(s, xs, init);
    }
  }

  /** What a state has counted, leaving out frame numbers: they are all a stream shift changes. */
  datatype Counted = Counted(
    badCounter: nat, current: Option<Posture>, total: nat, good: nat, bad: nat, postures: seq<Posture>)

  function CountedOf(s: StreamState): Counted {
    Counted(s.badCounter, s.current, s.total, s.good, s.bad, Postures(s.changes))
  }

  /** A step does the same to the counts of two states that have counted the same. */
  lemma StepKeepsCounted(s1: StreamState, s2: StreamState, d: Detection)
    requires CountedOf(s1) == CountedOf(s2)
    ensures CountedOf(Step(s1, d)) == CountedOf(Step(s2, d))
  {
    if d.Some? {
      var p := Label(d.value);
      if Some(p) != s1.current {
        var c1, c2 := Change(s1.frameCount + 1, p), Change(s2.frameCount + 1, p);
        assert Postures(s1.changes + [c1]) == Postures(s1.changes) + [p];
        assert Postures(s2.changes + [c2]) == Postures(s2.changes) + [p];
      }
    }
  }

  lemma {:induction false} RunKeepsCounted(s1: StreamState, s2: StreamState, ds: seq<Detection>)
    requires CountedOf(s1) == CountedOf(s2)
    ensures CountedOf(Run(s1, ds)) == CountedOf(Run(s2, ds))
  {
    if ds != [] {
      var init := ds[..|ds| - 1];
      RunKeepsCounted(s1, s2, init);
      StepKeepsCounted(Run(s1, init), Run(s2, init), ds[|ds| - 1]);
    }
  }

  /**
   * A frame without a detection, anywhere in a stream, changes no count, no streak,
   * no current posture and no timeline posture: it only delays the frame numbers after it.
   */
  lemma UndetectedFrameAnywhere(xs: seq<Detection>, ys: seq<Detection>)
    ensures CountedOf(Run(Start, xs + [None] + ys)) == CountedOf(Run(Start, xs + ys))
    ensures Run(Start, xs + [None] + ys).frameCount == Run(Start, xs + ys).frameCount + 1
  {
    var a := Run(Start, xs);
    RunAppend(Start, xs + [None], ys);
    RunAppend(Start, xs, ys);
    RunSnoc(Start, xs, None);
    RunKeepsCounted(Step(a, None), a, ys);
    RunFrameCount(Step(a, None), ys);
    RunFrameCount(a, ys);
  }

  /** A frame without a detection only advances the frame count. */
  lemma UndetectedFrameChangesNothing(s: StreamState)
    ensures Step(s, None) == s.(frameCount := s.frameCount + 1)
  {
  }

  /** A good frame ends any bad streak, counts once as good and never as bad. */
  lemma GoodFrameResetsStreak(s: StreamState, classId: int)
    requires classId != 1
    ensures var t := Step(s, Some(classId));
      t.badCounter == 0 && t.good == s.good + 1 && t.bad == s.bad && t.total == s.total + 1
      && t.current == Some(Good)
  {
  }

  /** A bad frame extends the streak; it is counted as bad only once the streak reaches the threshold. */
  lemma BadFrameExtendsStreak(s: StreamState)
    ensures var t := Step(s, Some(1));
      t.badCounter == s.badCounter + 1 && t.good == s.good && t.total == s.total + 1
      && (t.bad == s.bad + 1 <==> s.badCounter + 1 >= BadPostureThreshold)
      && (t.bad == s.bad <==> s.badCounter + 1 < BadPostureThreshold)
      && t.current == Some(Bad)
  {
  }

  /** How many of the first `n` frames of a bad streak are counted as bad: `max(0, n - 199)`. */
  function Excess(n: nat): nat {
    if n < BadPostureThreshold then 0 else n - (BadPostureThreshold - 1)
  }

  /** `k` frames classified bad. */
  function BadFrames(k: nat): seq<Detection> {
    seq(k, _ => Some(1))
  }

  /**
   * `k` bad frames in a row lengthen the streak by `k` and add to the bad count
   * exactly the frames whose streak position is at or past the threshold.
   */
  lemma {:induction false} BadStreak(s: StreamState, k: nat)
    ensures var t := Run(s, BadFrames(k));
      t.badCounter == s.badCounter + k && t.good == s.good && t.total == s.total + k
      && t.frameCount == s.frameCount + k
      && t.bad == s.bad + Excess(s.badCounter + k) - Excess(s.badCounter)
      && Excess(s.badCounter) <= Excess(s.badCounter + k)
  {
    if k > 0 {
      assert BadFrames(k) == BadFrames(k - 1) + [Some(1)];
      RunSnoc(s, BadFrames(k - 1), Some(1));
      BadStreak(s, k - 1);
    }
  }

  /**
   * From a clear streak, 199 bad frames and then any good frame add nothing to the
   * bad count; the 200th bad frame in a row is the first one counted.
   */
  lemma WarningZone(s: StreamState, goodId: int)
    requires s.badCounter == 0 && goodId != 1
    ensures Run(s, BadFrames(199)).bad == s.bad
    ensures Run(s, BadFrames(199) + [Some(goodId)]).bad == s.bad
    ensures Run(s, BadFrames(199) + [Some(goodId)]).badCounter == 0
    ensures Run(s, BadFrames(200)).bad == s.bad + 1
  {
    BadStreak(s, 199);
    BadStreak(s, 200);
    RunSnoc(s, BadFrames(199), Some(goodId));
  }

  /**
   * What holds of the loop's state at every iteration: the good and bad counts never
   * exceed the classified count, each classified frame adds at most one timeline
   * change, changes are at strictly increasing frames already read, neighbouring
   * changes alternate, the current posture is the last change, and a streak is
   * running exactly when the current posture is bad.
   */
  ghost predicate Consistent(s: StreamState) {
    && s.good + s.bad <= s.total <= s.frameCount
    && |s.changes| <= s.total
    && CurrentIsLast(s)
    && (s.badCounter > 0 <==> s.current == Some(Bad))
    && ChangesOrdered(s.changes, s.frameCount)
  }

  /** The current posture is the one the last change recorded, and none before any change. */
  ghost predicate CurrentIsLast(s: StreamState) {
    s.current == if s.changes == [] then None else Some(s.changes[|s.changes| - 1].posture)
  }

  lemma {:induction false} RunCurrentIsLast(ds: seq<Detection>)
    ensures CurrentIsLast(Run(Start, ds))
  {
    if ds != [] {
      var init, d := ds[..|ds| - 1], ds[|ds| - 1];
      RunCurrentIsLast(init);
      var s := Run(Start, init);
      if d.Some? {
        StepDetected(s, d.value);
      }
    }
  }

  /** Changes at strictly increasing frames among the first `frameCount`, alternating postures. */
  ghost predicate ChangesOrdered(cs: seq<Change>, frameCount: nat) {
    && (forall i :: 0 <= i < |cs| ==> 1 <= cs[i].frame <= frameCount)
    && (forall i, j :: 0 <= i < j < |cs| ==> cs[i].frame < cs[j].frame)
    && (forall i :: 0 < i < |cs| ==> cs[i - 1].posture != cs[i].posture)
  }

  lemma ChangesOrderedLater(cs: seq<Change>, frameCount: nat)
    requires ChangesOrdered(cs, frameCount)
    ensures ChangesOrdered(cs, frameCount + 1)
  {
  }

  lemma ChangesOrderedSnoc(cs: seq<Change>, frameCount: nat, c: Change)
    requires ChangesOrdered(cs, frameCount) && c.frame == frameCount + 1
    requires cs != [] ==> cs[|cs| - 1].posture != c.posture
    ensures ChangesOrdered(cs + [c], frameCount + 1)
  {
    var ext := cs + [c];
    forall i, j | 0 <= i < j < |ext| ensures ext[i].frame < ext[j].frame {
      if j < |cs| {
        assert ext[i] == cs[i] && ext[j] == cs[j];
      } else {
        assert ext[i] == cs[i];
      }
    }
  }

  lemma StartConsistent()
    ensures Consistent(Start)
  {
  }

  lemma StepConsistent(s: StreamState, d: Detection)
    requires Consistent(s)
    ensures Consistent(Step(s, d))
  {
    if d.None? {
      UndetectedFrameChangesNothing(s);
      ChangesOrderedLater(s.changes, s.frameCount);
    } else {
      StepDetected(s, d.value);
      var t := Step(s, d);
      var c := Change(s.frameCount + 1, Label(d.value));
      if Some(Label(d.value)) != s.current {
        ChangesOrderedSnoc(s.changes, s.frameCount, c);
        assert t.changes == s.changes + [c] && t.changes[|t.changes| - 1] == c;
      } else {
        ChangesOrderedLater(s.changes, s.frameCount);
        assert t.changes == s.changes && t.current == s.current;
      }
      assert t.good + t.bad <= t.total <= t.frameCount && |t.changes| <= t.total;
    }
  }

  /** Every prefix of every stream read from a consistent state leaves it consistent. */
  lemma {:induction false} RunConsistent(s: StreamState, ds: seq<Detection>)
    requires Consistent(s)
    ensures Consistent(Run(s, ds)) && Run(s, ds).frameCount == s.frameCount + |ds|
  {
    if ds != [] {
      RunConsistent(s, ds[..|ds| - 1]);
      StepConsistent(Run(s, ds[..|ds| - 1]), ds[|ds| - 1]);
    }
  }

  /** Every frame read, detected or not, advances the frame number by one. */
  lemma {:induction false} RunFrameCount(s: StreamState, ds: seq<Detection>)
    ensures Run(s, ds).frameCount == s.frameCount + |ds|
  {
    if ds != [] {
      RunFrameCount(s, ds[..|ds| - 1]);
    }
  }

  /**
   * After any stream read from the start, good and bad frames together never
   * outnumber the classified frames, and neither do the timeline changes.
   */
  lemma PassBounds(ds: seq<Detection>)
    ensures var r := Run(Start, ds);
      r.good + r.bad <= r.total <= |ds| && |r.changes| <= r.total
  {
    StartConsistent();
    RunConsistent(Start, ds);
  }

  /** The labels of the classified frames of a stream, in order. */
  function Labels(ds: seq<Detection>): seq<Posture> {
    if ds == [] then []
    else
      Labels(ds[..|ds| - 1]) + match ds[|ds| - 1] { case None => [] case Some(c) => [Label(c)] }
  }

  /** The number of labels equal to `p`. */
  function CountOf(ls: seq<Posture>, p: Posture): nat {
    if ls == [] then 0 else CountOf(ls[..|ls| - 1], p) + (if ls[|ls| - 1] == p then 1 else 0)
  }

  /** A run of equal neighbours collapsed to one: the reference definition of the timeline. */
  function Compress(ls: seq<Posture>): seq<Posture> {
    if ls == [] then []
    else
      var c := Compress(ls[..|ls| - 1]);
      if c != [] && c[|c| - 1] == ls[|ls| - 1] then c else c + [ls[|ls| - 1]]
  }

  /** The number of places where a label differs from the one before it. */
  function Boundaries(ls: seq<Posture>): nat {
    if |ls| <= 1 then 0
    else Boundaries(ls[..|ls| - 1]) + (if ls[|ls| - 1] != ls[|ls| - 2] then 1 else 0)
  }

  /**
   * Collapsing keeps the first and last label, its neighbours always differ, and it
   * has one entry for the first label plus one per boundary.
   */
  lemma {:induction false} CompressShape(ls: seq<Posture>)
    ensures |Compress(ls)| == if ls == [] then 0 else 1 + Boundaries(ls)
    ensures ls != [] ==> Compress(ls)[0] == ls[0] && Compress(ls)[|Compress(ls)| - 1] == ls[|ls| - 1]
    ensures forall i :: 0 < i < |Compress(ls)| ==> Compress(ls)[i - 1] != Compress(ls)[i]
  {
    if ls != [] {
      var init := ls[..|ls| - 1];
      CompressShape(init);
      if init != [] {
        assert init[|init| - 1] == ls[|ls| - 2];
        assert init[0] == ls[0];
      }
    }
  }

  /** The postures of a list of changes. */
  function Postures(cs: seq<Change>): (ps: seq<Posture>)
    ensures |ps| == |cs| && forall i :: 0 <= i < |cs| ==> ps[i] == cs[i].posture
  {
    if cs == [] then [] else Postures(cs[..|cs| - 1]) + [cs[|cs| - 1].posture]
  }

  /** Collapsing one more label: it is dropped when it repeats the last kept one. */
  function CompressPush(c: seq<Posture>, p: Posture): seq<Posture> {
    if c != [] && c[|c| - 1] == p then c else c + [p]
  }

  lemma CompressSnoc(ls: seq<Posture>, p: Posture)
    ensures Compress(ls + [p]) == CompressPush(Compress(ls), p)
  {
    assert (ls + [p])[..|ls|] == ls;
  }

  lemma LabelsSnoc(ds: seq<Detection>, d: Detection)
    ensures Labels(ds + [d]) == Labels(ds) + (if d.None? then [] else [Label(d.value)])
  {
    assert (ds + [d])[..|ds|] == ds;
  }

  /** One step adds to the postures of the timeline what collapsing adds for its label. */
  lemma StepTimeline(s: StreamState, d: Detection)
    requires CurrentIsLast(s)
    ensures Postures(Step(s, d).changes) ==
      if d.None? then Postures(s.changes) else CompressPush(Postures(s.changes), Label(d.value))
  {
    if d.Some? {
      var t := Step(s, d);
      var p := Label(d.value);
      if Some(p) != s.current {
        assert t.changes == s.changes + [Change(s.frameCount + 1, p)];
        assert Postures(t.changes)[..|s.changes|] == Postures(s.changes);
      }
    }
  }

  /**
   * The timeline one pass produces is the classified labels with runs collapsed:
   * an entry for the first classified frame, then one at every label change, and
   * undetected frames in between make no difference.
   */
  lemma {:induction false} TimelineIsCompressedLabels(ds: seq<Detection>)
    ensures Postures(Run(Start, ds).changes) == Compress(Labels(ds))
  {
    if ds != [] {
      var init, d := ds[..|ds| - 1], ds[|ds| - 1];
      assert ds == init + [d];
      TimelineIsCompressedLabels(init);
      RunCurrentIsLast(init);
      StepTimeline(Run(Start, init), d);
      LabelsSnoc(init, d);
      assert Run(Start, ds) == Step(Run(Start, init), d);
      if d.Some? {
        CompressSnoc(Labels(init), Label(d.value));
        assert Labels(ds) == Labels(init) + [Label(d.value)];
      } else {
        assert Labels(ds) == Labels(init);
      }
    }
  }

  /**
   * One pass yields a timeline of `1 + boundaries` entries when any frame was
   * classified and none otherwise, with neighbouring entries alternating.
   */
  lemma TimelineLength(ds: seq<Detection>)
    ensures |Run(Start, ds).changes| == if Labels(ds) == [] then 0 else 1 + Boundaries(Labels(ds))
    ensures forall i :: 0 < i < |Run(Start, ds).changes| ==>
      Run(Start, ds).changes[i - 1].posture != Run(Start, ds).changes[i].posture
  {
    TimelineIsCompressedLabels(ds);
    CompressShape(Labels(ds));
    StartConsistent();
    RunConsistent(Start, ds);
  }

  /**
   * Each change sits at the 1-based number, counted over all frames read, of the
   * frame that caused it, and carries that frame's label. No frame before the first
   * change is classified, and every classified frame from a change up to the next one
   * carries that change's label: a change is recorded exactly at the first classified
   * frame of each run of equal labels.
   */
  lemma ChangesMarkTheirFrames(ds: seq<Detection>)
    ensures var cs := Run(Start, ds).changes;
      forall j :: 0 <= j < |cs| ==>
        1 <= cs[j].frame <= |ds| && ds[cs[j].frame - 1].Some?
        && Label(ds[cs[j].frame - 1].value) == cs[j].posture
    ensures QuietBeforeFirst(Run(Start, ds).changes, ds)
    ensures RunsFollowChanges(Run(Start, ds).changes, ds)
  {
    ChangesAtTheirFrames(ds);
    RunsFollowTheirChanges(ds);
  }

  lemma {:induction false} ChangesAtTheirFrames(ds: seq<Detection>)
    ensures var cs := Run(Start, ds).changes;
      forall j :: 0 <= j < |cs| ==>
        1 <= cs[j].frame <= |ds| && ds[cs[j].frame - 1].Some?
        && Label(ds[cs[j].frame - 1].value) == cs[j].posture
  {
    if ds != [] {
      var init := ds[..|ds| - 1];
      ChangesAtTheirFrames(init);
      RunFrameCount(Start, init);
      var prev := Run(Start, init);
      var d := ds[|ds| - 1];
      assert ds == init + [d];
      assert Run(Start, ds) == Step(prev, d);
      var cs := Run(Start, ds).changes;
      forall j | 0 <= j < |cs|
        ensures 1 <= cs[j].frame <= |ds| && ds[cs[j].frame - 1].Some?
          && Label(ds[cs[j].frame - 1].value) == cs[j].posture
      {
        if j < |prev.changes| {
          assert cs[j] == prev.changes[j];
          assert ds[cs[j].frame - 1] == init[cs[j].frame - 1];
        } else {
          assert d.Some? && cs[j] == Change(|ds|, Label(d.value));
        }
      }
    }
  }

  lemma {:induction false} RunsFollowTheirChanges(ds: seq<Detection>)
    ensures QuietBeforeFirst(Run(Start, ds).changes, ds)
    ensures RunsFollowChanges(Run(Start, ds).changes, ds)
  {
    if ds != [] {
      var init, d := ds[..|ds| - 1], ds[|ds| - 1];
      RunsFollowTheirChanges(init);
      ChangesAtTheirFrames(init);
      RunFrameCount(Start, init);
      RunCurrentIsLast(init);
      assert ds == init + [d];
      assert Run(Start, ds) == Step(Run(Start, init), d);
      QuietStep(Run(Start, init), init, d);
      RunsStep(Run(Start, init), init, d);
    }
  }

  /** The changes so far all sit at frames already read. */
  ghost predicate ChangesRead(s: StreamState) {
    forall k :: 0 <= k < |s.changes| ==> s.changes[k].frame <= s.frameCount
  }

  /** One frame keeps the frames before the first change unclassified. */
  lemma QuietStep(s: StreamState, ds: seq<Detection>, d: Detection)
    requires s.frameCount == |ds| && ChangesRead(s) && CurrentIsLast(s)
    requires QuietBeforeFirst(s.changes, ds)
    ensures QuietBeforeFirst(Step(s, d).changes, ds + [d])
  {
    var cs, es := Step(s, d).changes, ds + [d];
    if d.None? {
      UndetectedFrameChangesNothing(s);
    } else {
      StepDetected(s, d.value);
    }
    if s.changes != [] {
      assert cs[0] == s.changes[0];
    } else if d.Some? {
      assert cs == [Change(|ds| + 1, Label(d.value))];
    }
    forall i | 0 <= i < |es| && i < (if cs == [] then |es| else cs[0].frame - 1)
      ensures es[i].None?
    {
      if i < |ds| {
        assert es[i] == ds[i];
      }
    }
  }

  /** One frame keeps every classified frame labelled as the change that opened its run. */
  lemma RunsStep(s: StreamState, ds: seq<Detection>, d: Detection)
    requires s.frameCount == |ds| && ChangesRead(s) && CurrentIsLast(s)
    requires RunsFollowChanges(s.changes, ds)
    ensures RunsFollowChanges(Step(s, d).changes, ds + [d])
  {
    var cs, es := Step(s, d).changes, ds + [d];
    if d.None? {
      UndetectedFrameChangesNothing(s);
    } else {
      StepDetected(s, d.value);
    }
    var n := |s.changes|;
    assert cs[..n] == s.changes;
    assert forall k :: 0 <= k < n ==> cs[k] == s.changes[k];
    if |cs| > n {
      assert |cs| == n + 1 && cs[n] == Change(|ds| + 1, Label(d.value));
    }
    forall j, i | 0 <= j < |cs| && 0 <= i && cs[j].frame - 1 <= i < |es|
        && (j + 1 < |cs| ==> i < cs[j + 1].frame - 1) && es[i].Some?
      ensures Label(es[i].value) == cs[j].posture
    {
      if i < |ds| {
        assert es[i] == ds[i];
      }
    }
  }

  /** No frame before the first change (before the end, when there is none) is classified. */
  ghost predicate QuietBeforeFirst(cs: seq<Change>, ds: seq<Detection>) {
    forall i :: 0 <= i < |ds| && i < (if cs == [] then |ds| else cs[0].frame - 1) ==> ds[i].None?
  }

  /** Every classified frame from a change up to the next change carries that change's label. */
  ghost predicate RunsFollowChanges(cs: seq<Change>, ds: seq<Detection>) {
    forall j, i :: 0 <= j < |cs| && 0 <= i && cs[j].frame - 1 <= i < |ds|
      && (j + 1 < |cs| ==> i < cs[j + 1].frame - 1) && ds[i].Some?
      ==> Label(ds[i].value) == cs[j].posture
  }

  /** One pass counts every classified frame once in total and every good one once as good. */
  lemma {:induction false} RunCounts(ds: seq<Detection>)
    ensures Run(Start, ds).total == |Labels(ds)|
    ensures Run(Start, ds).good == CountOf(Labels(ds), Good)
  {
    if ds != [] {
      var init := ds[..|ds| - 1];
      RunCounts(init);
      assert ds == init + [ds[|ds| - 1]];
      LabelsSnoc(init, ds[|ds| - 1]);
      assert Run(Start, ds) == Step(Run(Start, init), ds[|ds| - 1]);
      if ds[|ds| - 1].Some? {
        var ls := Labels(ds);
        assert ls == Labels(init) + [Label(ds[|ds| - 1].value)];
        assert ls[..|ls| - 1] == Labels(init);
      } else {
        assert Labels(ds) == Labels(init);
      }
    }
  }

  /**
   * A pass in which every frame is detected with good posture counts every frame
   * as good, none as bad, and records a single timeline change at the first frame.
   */
  lemma {:induction false} AllGoodPass(ds: seq<Detection>)
    requires ds != []
    requires forall i :: 0 <= i < |ds| ==> ds[i].Some? && ds[i].value != 1
    ensures Run(Start, ds) == StreamState(|ds|, 0, Some(Good), |ds|, |ds|, 0, [Change(1, Good)])
  {
    if |ds| > 1 {
      AllGoodPass(ds[..|ds| - 1]);
    }
  }

  /** The colour of the box drawn around a detection. */
  datatype Color = Green | Orange | Red

  /** The box colour and status text drawn for a detected frame, given the streak after it. */
  datatype Annotation = Annotation(color: Color, status: string)

  function Annotate(classId: int, badCounter: nat): Annotation {
    if classId == 1 then
      if badCounter >= BadPostureThreshold then
        Annotation(Red, "Bad Posture! (" + NatToString(badCounter) + ")")
      else
        Annotation(Orange, "Warning (" + NatToString(badCounter) + "/" + NatToString(BadPostureThreshold) + ")")
    else
      Annotation(Green, "Good Posture")
  }

  /**
   * The drawn colour agrees with the statistics: red exactly when the frame is
   * counted as bad, green exactly when it is counted as good, orange when it is
   * counted as neither.
   */
  lemma AnnotationAgreesWithCounts(s: StreamState, classId: int)
    ensures var t := Step(s, Some(classId));
      var a := Annotate(classId, t.badCounter);
      (a.color == Red <==> t.bad == s.bad + 1)
      && (a.color == Green <==> t.good == s.good + 1)
      && (a.color == Orange <==> t.good == s.good && t.bad == s.bad)
  {
  }
}
