/** `plan` of the standalone time planner: the dialogue is flattened and
    every utterance is given a `start` and an `end` proportional to its
    length, one after the other, with no correction of the last one. */
module ScenePlanner {
  import opened Dialogue

  /** An utterance dict after `plan` has written its `start` and `end`. */
  datatype Planned = Planned(scene: nat, who: string, text: string, start: real, end: real)

  /** The plan `plan(scenes, total)` returns. */
  function PlanOf(scenes: seq<Scene>, total: real): (ps: seq<Planned>)
    ensures |ps| == LineCount(scenes)
  {
    var us := Flatten(scenes);
    var shares := Shares(total, us);
    seq(|us|, i requires 0 <= i < |us| =>
      Planned(us[i].scene, us[i].who, us[i].text,
              RealSum(shares[..i]), RealSum(shares[..i]) + shares[i]))
  }

  /** The flatten loop, then `for i, u in enumerate(utterances)` with the
      running start `t`. */
  method Plan(scenes: seq<Scene>, totalAudioSeconds: real) returns (planned: seq<Planned>)
    ensures planned == PlanOf(scenes, totalAudioSeconds)
  {
    var us := FlattenScenes(scenes);
    planned := [];
    var t := 0.0;
    ghost var shares := Shares(totalAudioSeconds, us);
    for i := 0 to |us|
      invariant |planned| == i
      invariant t == RealSum(shares[..i])
      invariant planned == PlanOf(scenes, totalAudioSeconds)[..i]
    {
      // only reached with a non-empty list, so `total` is positive here
      var dur := Share(totalAudioSeconds, Weight(us[i].text), TotalWeight(us));
      PlanAt(scenes, totalAudioSeconds, i);
      RealSumSnoc(shares, i);
      ghost var next := Planned(us[i].scene, us[i].who, us[i].text, t, t + dur);
      assert next == PlanOf(scenes, totalAudioSeconds)[i];
      SnocPrefix(PlanOf(scenes, totalAudioSeconds), i);
      planned := planned + [Planned(us[i].scene, us[i].who, us[i].text, t, t + dur)];
      t := t + dur;
    }
  }

  lemma SnocPrefix<T>(xs: seq<T>, i: nat)
    requires i < |xs|
    ensures xs[..i] + [xs[i]] == xs[..i + 1]
  {
  }

  /** Entry `i` of the plan. */
  lemma PlanAt(scenes: seq<Scene>, total: real, i: nat)
    requires i < |Flatten(scenes)|
    ensures var us := Flatten(scenes);
      var shares := Shares(total, us);
      && |PlanOf(scenes, total)| == |us|
      && shares[i] == Share(total, Weight(us[i].text), TotalWeight(us))
      && PlanOf(scenes, total)[i]
         == Planned(us[i].scene, us[i].who, us[i].text, RealSum(shares[..i]), RealSum(shares[..i]) + shares[i])
  {
  }

  /** One entry per dialogue line, in order, with scene, speaker and text
      copied from the script. */
  lemma PlanCopiesLines(scenes: seq<Scene>, total: real, i: nat)
    requires i < |PlanOf(scenes, total)|
    ensures var p := PlanOf(scenes, total)[i];
      var u := Flatten(scenes)[i];
      p.scene == u.scene && p.who == u.who && p.text == u.text
  {
  }

  /** The first utterance starts at 0 and each one ends where the next
      starts. */
  lemma PlanContiguous(scenes: seq<Scene>, total: real)
    ensures var ps := PlanOf(scenes, total);
      && (ps != [] ==> ps[0].start == 0.0)
      && (forall i :: 0 <= i < |ps| - 1 ==> ps[i].end == ps[i + 1].start)
  {
    var ps := PlanOf(scenes, total);
    var shares := Shares(total, Flatten(scenes));
    forall i | 0 <= i < |ps| - 1 ensures ps[i].end == ps[i + 1].start {
      RealSumSnoc(shares, i);
    }
  }

  /** Each slot is `total * (max(1, len(text)) / sum)`. */
  lemma PlanSlot(scenes: seq<Scene>, total: real, i: nat)
    requires i < |PlanOf(scenes, total)|
    ensures var us := Flatten(scenes);
      PlanOf(scenes, total)[i].end - PlanOf(scenes, total)[i].start
        == Share(total, Weight(us[i].text), TotalWeight(us))
  {
    var us := Flatten(scenes);
    assert PlanOf(scenes, total)[i].end - PlanOf(scenes, total)[i].start == Shares(total, us)[i];
  }

  /** A positive total gives every utterance a slot of positive length. */
  lemma PlanSlotPositive(scenes: seq<Scene>, total: real, i: nat)
    requires i < |PlanOf(scenes, total)| && total > 0.0
    ensures PlanOf(scenes, total)[i].end > PlanOf(scenes, total)[i].start
  {
    var us := Flatten(scenes);
    SharesPositive(total, us);
    assert PlanOf(scenes, total)[i].end - PlanOf(scenes, total)[i].start == Shares(total, us)[i];
  }

  /** A longer text never gets a shorter slot. */
  lemma PlanSlotMonotone(scenes: seq<Scene>, total: real, i: nat, j: nat)
    requires i < |PlanOf(scenes, total)| && j < |PlanOf(scenes, total)|
    requires total >= 0.0 && |Flatten(scenes)[i].text| <= |Flatten(scenes)[j].text|
    ensures PlanOf(scenes, total)[i].end - PlanOf(scenes, total)[i].start
         <= PlanOf(scenes, total)[j].end - PlanOf(scenes, total)[j].start
  {
    var us := Flatten(scenes);
    SharesMonotone(total, us, i, j);
    assert PlanOf(scenes, total)[i].end - PlanOf(scenes, total)[i].start == Shares(total, us)[i];
    assert PlanOf(scenes, total)[j].end - PlanOf(scenes, total)[j].start == Shares(total, us)[j];
  }

  /** In exact arithmetic the last utterance ends at `total`, although no
      correction is applied. */
  lemma PlanEndsAtTotal(scenes: seq<Scene>, total: real)
    requires PlanOf(scenes, total) != []
    ensures var ps := PlanOf(scenes, total);
      ps[|ps| - 1].end == total
  {
    var us := Flatten(scenes);
    var shares := Shares(total, us);
    var last := |us| - 1;
    RealSumSnoc(shares, last);
    assert shares[..last + 1] == shares;
    SharesSum(total, us);
  }

  /** Scenes without dialogue give an empty plan. */
  lemma PlanEmpty(scenes: seq<Scene>, total: real)
    ensures PlanOf(scenes, total) == [] <==> forall si :: 0 <= si < |scenes| ==> scenes[si].dialogue == []
  {
    FlattenEmpty(scenes);
  }
}
