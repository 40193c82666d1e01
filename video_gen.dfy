/** The bookkeeping of `generate_video` around the drawing: the clip
    duration and frame count, the dialogue timeline, the frame index of a
    time, the active utterance and its scene, and the numbers fed to the
    avatar drawing. */
module VideoGen {
  import opened Dialogue

  // ---------------------------------------------------------------------
  // Duration and frames

  /** `max(1.0, audio.duration)` */
  function ClipDuration(audioDuration: real): (d: real)
    ensures d >= 1.0 && d >= audioDuration
    ensures d == audioDuration || d == 1.0
  {
    if audioDuration >= 1.0 then audioDuration else 1.0
  }

  /** Python's `int()` on a float: truncation toward zero. */
  function Trunc(x: real): (n: int)
    ensures x >= 0.0 ==> 0 <= n && n as real <= x < n as real + 1.0
    ensures x < 0.0 ==> n <= 0 && n as real - 1.0 < x <= n as real
  {
    if x >= 0.0 then x.Floor else -((-x).Floor)
  }

  /** `max(1, int(duration * fps))` */
  function TotalFrames(duration: real, fps: int): (n: int)
    ensures n >= 1
  {
    var f := Trunc(duration * fps as real);
    if f >= 1 then f else 1
  }

  /** For a clip of at least a second, the frame count is the whole number
      of frames that fit in the duration, and at least `fps`. */
  lemma TotalFramesCount(duration: real, fps: int)
    requires duration >= 1.0 && fps >= 1
    ensures TotalFrames(duration, fps) == (duration * fps as real).Floor
    ensures TotalFrames(duration, fps) >= fps
  {
    var x := duration * fps as real;
    assert x - fps as real == (duration - 1.0) * fps as real;
    assert x >= fps as real;
  }

  /** `min(total_frames - 1, int(tsec * fps))` */
  function FrameIndex(t: real, fps: int, totalFrames: int): int {
    var f := Trunc(t * fps as real);
    if totalFrames - 1 <= f then totalFrames - 1 else f
  }

  /** For a non-negative time the frame index is a valid index of `env`. */
  lemma FrameIndexInRange(t: real, fps: int, totalFrames: int)
    requires t >= 0.0 && fps >= 0 && totalFrames >= 1
    ensures 0 <= FrameIndex(t, fps, totalFrames) < totalFrames
  {
    assert t * fps as real >= 0.0;
  }

  /** Later times never map to earlier frames. */
  lemma FrameIndexMonotone(t1: real, t2: real, fps: int, totalFrames: int)
    requires 0.0 <= t1 <= t2 && fps >= 0
    ensures FrameIndex(t1, fps, totalFrames) <= FrameIndex(t2, fps, totalFrames)
  {
    assert t2 * fps as real - t1 * fps as real == (t2 - t1) * fps as real;
    assert t1 * fps as real >= 0.0;
  }

  // ---------------------------------------------------------------------
  // Utterances and timeline

  /** What is spoken when the script has no dialogue at all. */
  const Placeholder := Utterance(0, "Teacher", "No dialog provided.")

  /** The utterances the video is timed by. */
  function Utterances(scenes: seq<Scene>): (us: seq<Utterance>)
    ensures us != []
    ensures scenes != [] ==> forall i :: 0 <= i < |us| ==> us[i].scene < |scenes|
  {
    if Flatten(scenes) == [] then [Placeholder] else Flatten(scenes)
  }

  /** The placeholder stands in exactly when no scene has a dialogue line;
      otherwise every dialogue line is spoken, in scene order. */
  lemma UtterancesShape(scenes: seq<Scene>)
    ensures (forall si :: 0 <= si < |scenes| ==> scenes[si].dialogue == [])
        ==> Utterances(scenes) == [Placeholder]
    ensures (exists si :: 0 <= si < |scenes| && scenes[si].dialogue != [])
        ==> Utterances(scenes) == Flatten(scenes)
  {
    FlattenEmpty(scenes);
  }

  /** The flatten loops followed by `if not utterances: utterances = [...]`. */
  method CollectUtterances(scenes: seq<Scene>) returns (us: seq<Utterance>)
    ensures us == Utterances(scenes)
  {
    us := FlattenScenes(scenes);
    if us == [] {
      us := [Placeholder];
    }
  }

  /** Proportional segment durations, the running start times, and the
      patch of the last segment `seg[-1] += duration - (starts[-1] + seg[-1])`. */
  method AllocateTimeline(duration: real, us: seq<Utterance>) returns (starts: seq<real>, segs: seq<real>)
    ensures |starts| == |us| && |segs| == |us|
    // in exact arithmetic the patch adds nothing: segments are the shares
    ensures segs == Shares(duration, us)
    ensures forall i :: 0 <= i < |us| ==> starts[i] == RealSum(segs[..i])
    ensures us != [] ==> starts[0] == 0.0
    ensures forall i :: 0 <= i < |us| - 1 ==> starts[i + 1] == starts[i] + segs[i]
    ensures us != [] ==> starts[|us| - 1] + segs[|us| - 1] == duration
  {
    segs := Shares(duration, us);
    starts := RunningStarts(segs);
    StartsStep(segs, starts);
    if |starts| > 0 {
      var last := |segs| - 1;
      LastSegmentEnds(duration, us);
      segs := segs[last := segs[last] + (duration - (starts[last] + segs[last]))];
    }
  }

  /** `for d in seg_durations: starts.append(t); t += d` */
  method RunningStarts(segs: seq<real>) returns (starts: seq<real>)
    ensures |starts| == |segs|
    ensures forall i :: 0 <= i < |segs| ==> starts[i] == RealSum(segs[..i])
  {
    starts := [];
    var t := 0.0;
    for i := 0 to |segs|
      invariant |starts| == i
      invariant t == RealSum(segs[..i])
      invariant forall k :: 0 <= k < i ==> starts[k] == RealSum(segs[..k])
    {
      starts := starts + [t];
      RealSumSnoc(segs, i);
      t := t + segs[i];
    }
  }

  /** Running starts begin at 0 and each one is the previous plus its
      segment. */
  lemma StartsStep(segs: seq<real>, starts: seq<real>)
    requires |starts| == |segs|
    requires forall i :: 0 <= i < |segs| ==> starts[i] == RealSum(segs[..i])
    ensures segs != [] ==> starts[0] == 0.0
    ensures forall i :: 0 <= i < |segs| - 1 ==> starts[i + 1] == starts[i] + segs[i]
  {
    if segs != [] {
      assert segs[..0] == [];
    }
    forall i | 0 <= i < |segs| - 1 ensures starts[i + 1] == starts[i] + segs[i] {
      RealSumSnoc(segs, i);
    }
  }

  /** The last share ends exactly at the duration. */
  lemma LastSegmentEnds(duration: real, us: seq<Utterance>)
    requires us != []
    ensures var segs := Shares(duration, us);
      RealSum(segs[..|us| - 1]) + segs[|us| - 1] == duration
  {
    var segs := Shares(duration, us);
    var last := |us| - 1;
    RealSumSnoc(segs, last);
    assert segs[..last + 1] == segs;
    SharesSum(duration, us);
  }

  /** With a positive duration every segment is positive, so the start
      times strictly increase. */
  lemma {:induction false} StartsIncrease(duration: real, us: seq<Utterance>, i: nat, j: nat)
    requires duration > 0.0 && i < j <= |us|
    ensures RealSum(Shares(duration, us)[..i]) < RealSum(Shares(duration, us)[..j])
    decreases j
  {
    var segs := Shares(duration, us);
    SharesPositive(duration, us);
    RealSumSnoc(segs, j - 1);
    if i < j - 1 {
      StartsIncrease(duration, us, i, j - 1);
    }
  }

  /** The last index whose start is at or before `t`, or 0 when none is. */
  function LastAtOrBefore(starts: seq<real>, t: real): (k: nat)
    ensures starts == [] ==> k == 0
    ensures starts != [] ==> k < |starts|
    ensures forall j :: k < j < |starts| ==> starts[j] > t
    ensures (exists j :: 0 <= j < |starts| && starts[j] <= t) ==> starts[k] <= t
    ensures (forall j :: 0 <= j < |starts| ==> starts[j] > t) ==> k == 0
  {
    if starts == [] then 0
    else if starts[|starts| - 1] <= t then |starts| - 1
    else
      var front := starts[..|starts| - 1];
      assert forall j :: 0 <= j < |front| ==> front[j] == starts[j];
      LastAtOrBefore(front, t)
  }

  /** The scan `for i, st in enumerate(starts): if tsec >= st: u_idx = i`
      and the clamp `min(u_idx, len(utterances) - 1)`. */
  method ActiveUtterance(starts: seq<real>, t: real, count: nat) returns (u: nat)
    requires count >= 1
    ensures u < count
    ensures u == if LastAtOrBefore(starts, t) <= count - 1 then LastAtOrBefore(starts, t) else count - 1
  {
    u := 0;
    for i := 0 to |starts|
      invariant u == LastAtOrBefore(starts[..i], t)
    {
      assert starts[..i + 1][..i] == starts[..i];
      if t >= starts[i] {
        u := i;
      }
    }
    assert starts[..|starts|] == starts;
    if u > count - 1 {
      u := count - 1;
    }
  }

  /** On a timeline laid out by `AllocateTimeline`, the active utterance at
      any time inside the clip is the one whose segment contains it. */
  lemma ActiveContainsTime(starts: seq<real>, segs: seq<real>, duration: real, t: real)
    requires |starts| == |segs| >= 1
    requires starts[0] == 0.0
    requires forall i :: 0 <= i < |starts| - 1 ==> starts[i + 1] == starts[i] + segs[i]
    requires starts[|starts| - 1] + segs[|starts| - 1] == duration
    requires 0.0 <= t < duration
    ensures var k := LastAtOrBefore(starts, t);
      starts[k] <= t < starts[k] + segs[k]
  {
    var k := LastAtOrBefore(starts, t);
    if k < |starts| - 1 {
      assert starts[k + 1] > t;
    }
  }

  // ---------------------------------------------------------------------
  // Scene lookup and avatar numbers

  /** `{"title": "Scene", "keyline": ""}` when there are no scenes. */
  const DefaultScene := Scene("Scene", "", [])

  /** `scenes[u["scene"]] if scenes else {...}` */
  function SceneFor(scenes: seq<Scene>, u: Utterance): (sc: Scene)
    requires scenes != [] ==> u.scene < |scenes|
    ensures scenes == [] ==> sc == DefaultScene
    ensures scenes != [] ==> sc in scenes && sc == scenes[u.scene]
  {
    if scenes != [] then scenes[u.scene] else DefaultScene
  }

  /** The card always shows the scene whose dialogue the active line comes
      from. */
  lemma SceneHoldsLine(scenes: seq<Scene>, i: nat)
    requires exists si :: 0 <= si < |scenes| && scenes[si].dialogue != []
    requires i < |Utterances(scenes)|
    ensures var u := Utterances(scenes)[i];
      Line(u.who, u.text) in SceneFor(scenes, u).dialogue
  {
    UtterancesShape(scenes);
    FlattenLineInScene(scenes, i);
  }

  /** `int(6 + env * 24)`: the mouth opening in pixels. */
  function MouthHeight(env: real): int {
    Trunc(6.0 + env * 24.0)
  }

  /** A level in `[0, 1]` opens the mouth between 6 and 30 pixels, and a
      louder level never closes it. */
  lemma MouthRange(e1: real, e2: real)
    requires 0.0 <= e1 <= e2 <= 1.0
    ensures 6 <= MouthHeight(e1) <= MouthHeight(e2) <= 30
  {
  }

  /** `int(4 * env)`: the head bob in pixels. */
  function Bob(env: real): (b: int)
    requires 0.0 <= env <= 1.0
    ensures 0 <= b <= 4
  {
    Trunc(4.0 * env)
  }

  /** `envv if u["who"] == role else 0.15 * envv` */
  function AvatarLevel(envv: real, who: string, role: string): real {
    if who == role then envv else 0.15 * envv
  }

  /** The avatar who is not speaking moves its mouth at most as wide as
      the speaker's. */
  lemma ListenerQuieter(envv: real, who: string, role: string)
    requires 0.0 <= envv <= 1.0 && who != role
    ensures 0.0 <= AvatarLevel(envv, who, role) <= envv
    ensures MouthHeight(AvatarLevel(envv, who, role)) <= MouthHeight(AvatarLevel(envv, role, role))
  {
    MouthRange(0.15 * envv, envv);
  }

  /** `max(0.0, min(1.0, tsec / duration))` */
  function Progress(t: real, duration: real): (p: real)
    requires duration > 0.0
    ensures 0.0 <= p <= 1.0
  {
    var q := t / duration;
    if q <= 0.0 then 0.0 else if q >= 1.0 then 1.0 else q
  }

  /** Inside the clip the bar shows the elapsed fraction, and it never
      moves backwards. */
  lemma ProgressInClip(t1: real, t2: real, duration: real)
    requires duration > 0.0 && 0.0 <= t1 <= t2 <= duration
    ensures Progress(t1, duration) == t1 / duration
    ensures Progress(t1, duration) <= Progress(t2, duration)
  {
    DivMono(t1, t2, duration);
    DivMono(t2, duration, duration);
    DivMono(0.0, t1, duration);
  }
}
