/** The lesson script as the renderer and the planner consume it: scenes of
    dialogue lines, flattened into utterances, and the proportional share
    of the narration each utterance receives. Durations are exact reals. */
module Dialogue {

  /** One dialogue entry `{"who": ..., "line": ...}`. */
  datatype Line = Line(who: string, line: string)

  /** One scene `{"title": ..., "keyline": ..., "dialogue": [...]}`. */
  datatype Scene = Scene(title: string, keyline: string, dialogue: seq<Line>)

  /** One flattened entry `{"scene": si, "who": ..., "text": ...}`. */
  datatype Utterance = Utterance(scene: nat, who: string, text: string)

  // ---------------------------------------------------------------------
  // Flattening

  /** The utterances of scene `si`, in dialogue order. */
  function Tag(si: nat, lines: seq<Line>): (us: seq<Utterance>)
    ensures |us| == |lines|
  {
    seq(|lines|, k requires 0 <= k < |lines| => Utterance(si, lines[k].who, lines[k].line))
  }

  /** Total number of dialogue lines across `scenes`. */
  function LineCount(scenes: seq<Scene>): nat {
    if scenes == [] then 0
    else LineCount(scenes[..|scenes| - 1]) + |scenes[|scenes| - 1].dialogue|
  }

  /** Every dialogue line of every scene, in scene order, tagged with the
      index of its scene. */
  function Flatten(scenes: seq<Scene>): (us: seq<Utterance>)
    ensures |us| == LineCount(scenes)
    ensures forall i :: 0 <= i < |us| ==> us[i].scene < |scenes|
    ensures forall i, j :: 0 <= i < j < |us| ==> us[i].scene <= us[j].scene
  {
    if scenes == [] then []
    else
      var n := |scenes| - 1;
      var front := Flatten(scenes[..n]);
      var r := front + Tag(n, scenes[n].dialogue);
      assert forall i :: 0 <= i < |front| ==> r[i] == front[i];
      r
  }

  /** Line `k` of scene `si` is the utterance at position
      `LineCount(scenes[..si]) + k`. */
  lemma {:induction false} FlattenAt(scenes: seq<Scene>, si: nat, k: nat)
    requires si < |scenes| && k < |scenes[si].dialogue|
    ensures LineCount(scenes[..si]) + k < |Flatten(scenes)|
    ensures Flatten(scenes)[LineCount(scenes[..si]) + k]
         == Utterance(si, scenes[si].dialogue[k].who, scenes[si].dialogue[k].line)
  {
    var n := |scenes| - 1;
    var front := scenes[..n];
    if si == n {
      assert scenes[..si] == front;
    } else {
      assert front[..si] == scenes[..si];
      FlattenAt(front, si, k);
      LineCountPrefix(scenes, si);
    }
  }

  lemma {:induction false} LineCountPrefix(scenes: seq<Scene>, si: nat)
    requires si < |scenes|
    ensures LineCount(scenes[..si]) + |scenes[si].dialogue| <= LineCount(scenes)
    decreases |scenes|
  {
    var n := |scenes| - 1;
    if si == n {
      assert scenes[..n] == scenes[..si];
    } else {
      assert scenes[..n][..si] == scenes[..si];
      LineCountPrefix(scenes[..n], si);
    }
  }

  /** Flattening yields nothing exactly when no scene has a dialogue line. */
  lemma {:induction false} FlattenEmpty(scenes: seq<Scene>)
    ensures Flatten(scenes) == [] <==> forall si :: 0 <= si < |scenes| ==> scenes[si].dialogue == []
  {
    if scenes != [] {
      var n := |scenes| - 1;
      FlattenEmpty(scenes[..n]);
      assert forall si :: 0 <= si < n ==> scenes[..n][si] == scenes[si];
    }
  }

  /** Conversely, every utterance is a dialogue line of the scene it is
      tagged with. */
  lemma {:induction false} FlattenLineInScene(scenes: seq<Scene>, i: nat)
    requires i < |Flatten(scenes)|
    ensures var u := Flatten(scenes)[i];
      u.scene < |scenes| && Line(u.who, u.text) in scenes[u.scene].dialogue
  {
    var n := |scenes| - 1;
    var front := Flatten(scenes[..n]);
    if i < |front| {
      FlattenLineInScene(scenes[..n], i);
      assert Flatten(scenes)[i] == front[i];
      assert scenes[..n][front[i].scene] == scenes[front[i].scene];
    } else {
      var k := i - |front|;
      var lines := scenes[n].dialogue;
      assert Flatten(scenes)[i] == Tag(n, lines)[k];
      assert Line(lines[k].who, lines[k].line) == lines[k];
    }
  }

  /** The append loops `for si, sc in enumerate(scenes): for d in
      sc["dialogue"]: utterances.append(...)`. */
  method FlattenScenes(scenes: seq<Scene>) returns (us: seq<Utterance>)
    ensures us == Flatten(scenes)
  {
    us := [];
    var si := 0;
    while si < |scenes|
      invariant 0 <= si <= |scenes|
      invariant us == Flatten(scenes[..si])
    {
      var lines := scenes[si].dialogue;
      var k := 0;
      while k < |lines|
        invariant 0 <= k <= |lines|
        invariant us == Flatten(scenes[..si]) + Tag(si, lines[..k])
      {
        us := us + [Utterance(si, lines[k].who, lines[k].line)];
        k := k + 1;
      }
      assert lines[..k] == lines;
      assert scenes[..si + 1][..si] == scenes[..si];
      si := si + 1;
    }
    assert scenes[..si] == scenes;
  }

  // ---------------------------------------------------------------------
  // Proportional allocation

  /** `max(1, len(text))`: no utterance gets a zero weight. */
  function Weight(text: string): (w: nat)
    ensures w >= 1 && w >= |text|
    ensures |text| >= 1 ==> w == |text|
  {
    if |text| >= 1 then |text| else 1
  }

  /** Sum of the weights of the first `i` utterances. */
  function WeightPrefix(us: seq<Utterance>, i: nat): (p: nat)
    requires i <= |us|
    ensures p >= i
  {
    if i == 0 then 0 else WeightPrefix(us, i - 1) + Weight(us[i - 1].text)
  }

  /** `sum(max(1, len(u["text"])) for u in utterances)` */
  function TotalWeight(us: seq<Utterance>): nat {
    WeightPrefix(us, |us|)
  }

  /** `duration * (w / total)` */
  function Share(duration: real, w: nat, total: nat): real
    requires total > 0
  {
    duration * (w as real / total as real)
  }

  /** One share per utterance, proportional to its weight. */
  function Shares(duration: real, us: seq<Utterance>): (r: seq<real>)
    ensures |r| == |us|
  {
    if us == [] then []
    else seq(|us|, i requires 0 <= i < |us| => Share(duration, Weight(us[i].text), TotalWeight(us)))
  }

  /** Sum of a sequence of reals, from the left. */
  function RealSum(xs: seq<real>): real {
    if xs == [] then 0.0 else RealSum(xs[..|xs| - 1]) + xs[|xs| - 1]
  }

  lemma RealSumSnoc(xs: seq<real>, i: nat)
    requires i < |xs|
    ensures RealSum(xs[..i + 1]) == RealSum(xs[..i]) + xs[i]
  {
    assert xs[..i + 1][..i] == xs[..i];
  }

  /** Shares are additive in the weight. */
  lemma ShareAdd(d: real, p: nat, w: nat, total: nat)
    requires total > 0
    ensures Share(d, p + w, total) == Share(d, p, total) + Share(d, w, total)
  {
    assert (p + w) as real / total as real == p as real / total as real + w as real / total as real;
  }

  /** The first `i` shares add up to the share of the first `i` weights:
      the same proportion of the duration as those weights are of the total. */
  lemma {:induction false} SharesPrefixSum(duration: real, us: seq<Utterance>, i: nat)
    requires us != [] && i <= |us|
    ensures RealSum(Shares(duration, us)[..i]) == Share(duration, WeightPrefix(us, i), TotalWeight(us))
  {
    if i == 0 {
      PrefixSumZero(duration, us);
    } else {
      SharesPrefixSum(duration, us, i - 1);
      PrefixSumStep(duration, us, i);
    }
  }

  lemma PrefixSumZero(duration: real, us: seq<Utterance>)
    requires us != []
    ensures RealSum(Shares(duration, us)[..0]) == Share(duration, WeightPrefix(us, 0), TotalWeight(us))
  {
    assert Shares(duration, us)[..0] == [];
    assert WeightPrefix(us, 0) as real / TotalWeight(us) as real == 0.0;
  }

  lemma PrefixSumStep(duration: real, us: seq<Utterance>, i: nat)
    requires us != [] && 0 < i <= |us|
    requires RealSum(Shares(duration, us)[..i - 1]) == Share(duration, WeightPrefix(us, i - 1), TotalWeight(us))
    ensures RealSum(Shares(duration, us)[..i]) == Share(duration, WeightPrefix(us, i), TotalWeight(us))
  {
    var xs := Shares(duration, us);
    RealSumSnoc(xs, i - 1);
    var w := Weight(us[i - 1].text);
    assert xs[i - 1] == Share(duration, w, TotalWeight(us));
    assert WeightPrefix(us, i) == WeightPrefix(us, i - 1) + w;
    ShareAdd(duration, WeightPrefix(us, i - 1), w, TotalWeight(us));
  }

  /** In exact arithmetic the shares add up to the whole duration. */
  lemma SharesSum(duration: real, us: seq<Utterance>)
    requires us != []
    ensures RealSum(Shares(duration, us)) == duration
  {
    SharesPrefixSum(duration, us, |us|);
    assert Shares(duration, us)[..|us|] == Shares(duration, us);
    WholeShare(duration, TotalWeight(us) as real);
  }

  lemma WholeShare(d: real, t: real)
    requires t > 0.0
    ensures d * (t / t) == d
  {
    assert t / t == 1.0;
  }

  /** Every share of a positive duration is positive. */
  lemma SharesPositive(duration: real, us: seq<Utterance>)
    requires duration > 0.0
    ensures forall i :: 0 <= i < |us| ==> Shares(duration, us)[i] > 0.0
  {
    forall i | 0 <= i < |us| ensures Shares(duration, us)[i] > 0.0 {
      var w := Weight(us[i].text) as real;
      var t := TotalWeight(us) as real;
      assert w / t > 0.0;
    }
  }

  /** A longer text never gets a shorter slot than a shorter one. */
  lemma SharesMonotone(duration: real, us: seq<Utterance>, i: nat, j: nat)
    requires duration >= 0.0
    requires i < |us| && j < |us|
    requires |us[i].text| <= |us[j].text|
    ensures Shares(duration, us)[i] <= Shares(duration, us)[j]
  {
    var t := TotalWeight(us) as real;
    var wi := Weight(us[i].text) as real;
    var wj := Weight(us[j].text) as real;
    assert wi <= wj;
    DivMono(wi, wj, t);
    MulMono(duration, wi / t, wj / t);
  }

  lemma DivMono(a: real, b: real, t: real)
    requires t > 0.0 && a <= b
    ensures a / t <= b / t
  {
    assert (b - a) / t >= 0.0;
    assert b / t - a / t == (b - a) / t;
  }

  lemma MulMono(d: real, x: real, y: real)
    requires d >= 0.0 && x <= y
    ensures d * x <= d * y
  {
    assert d * y - d * x == d * (y - x);
  }
}
