/**
 * The keypoint pass of `draw_skeleton`: one entry per landmark, present when the
 * landmark's peak confidence is strictly above the threshold, and the marks that
 * pass leaves on the keypoint copy of the frame.
 */
module Keypoints {
  import opened Wrappers
  import opened Drawing
  import opened Heatmap

  /** The threshold every `HandPose` starts with. */
  const DefaultThreshold: real := 0.1

  /** Radius of the filled circle marking a detected landmark on the keypoint copy. */
  const KeypointRadius: nat := 6

  /** The keypoint list: entry `i` is landmark `i`'s pixel location, or `None`. */
  type Keypoints = seq<Option<Point>>

  /** The entry recorded for one landmark, given what the max-finder reported for its map. */
  function Keep(pk: Peak, threshold: real): Option<Point>
  {
    if pk.value > threshold then Some(Point(pk.loc.x, pk.loc.y)) else None
  }

  /**
   * The threshold rule stated on the map alone, independently of which maximum the
   * max-finder picks: an absent entry means no cell is above the threshold; a present
   * entry is the location of a global maximum, strictly above the threshold.
   */
  ghost predicate FollowsThresholdRule(m: ProbMap, threshold: real, e: Option<Point>)
  {
    match e
    case None => AllAtMost(m, threshold)
    case Some(p) => IsGlobalMax(m, p) && At(m, p) > threshold
  }

  /** Whatever maximum the max-finder reports, the kept entry obeys the threshold rule. */
  lemma KeepFollowsThresholdRule(m: ProbMap, pk: Peak, threshold: real)
    requires IsMaxPeak(m, pk)
    ensures FollowsThresholdRule(m, threshold, Keep(pk, threshold))
    ensures Keep(pk, threshold).Some? ==> Keep(pk, threshold).value == pk.loc
  {
  }

  /**
   * A peak exactly at the threshold is not kept: the comparison is strict, so the
   * landmark is absent although a cell of its map reaches the threshold.
   */
  lemma PeakAtThresholdIsAbsent(m: ProbMap, pk: Peak, threshold: real)
    requires IsMaxPeak(m, pk) && pk.value == threshold
    ensures Keep(pk, threshold) == None
    ensures AllAtMost(m, threshold)
    ensures exists c :: InBounds(m, c) && At(m, c) == threshold
  {
  }

  /**
   * The rule fixes presence and the confidence found: two entries that both obey it
   * for the same map are both absent, or both present at cells of equal value.
   */
  lemma ThresholdRuleFixesPresence(m: ProbMap, threshold: real, e1: Option<Point>, e2: Option<Point>)
    requires FollowsThresholdRule(m, threshold, e1) && FollowsThresholdRule(m, threshold, e2)
    ensures e1.Some? <==> e2.Some?
    ensures e1.Some? && e2.Some? ==> At(m, e1.value) == At(m, e2.value)
  {
  }

  /** When every map is at most the threshold, every landmark is absent. */
  lemma AllBelowThresholdAllAbsent(maps: seq<ProbMap>, threshold: real, points: Keypoints)
    requires |points| == |maps|
    requires forall i :: 0 <= i < |maps| ==> FollowsThresholdRule(maps[i], threshold, points[i])
    requires forall i :: 0 <= i < |maps| ==> AllAtMost(maps[i], threshold)
    ensures forall i :: 0 <= i < |points| ==> points[i] == None
  {
  }

  /** The marks left for landmark `i`: a filled circle and its index label, or nothing. */
  function LandmarkMarks(i: nat, e: Option<Point>): seq<Mark>
  {
    match e
    case None => []
    case Some(p) => [Disc(p, KeypointRadius), Label(i, p)]
  }

  /** Everything the keypoint pass draws on the keypoint copy, landmark by landmark. */
  function KeypointMarks(points: Keypoints): seq<Mark>
  {
    if points == [] then []
    else KeypointMarks(points[..|points| - 1]) + LandmarkMarks(|points| - 1, points[|points| - 1])
  }

  /** A label names landmark `i` at `p` exactly when entry `i` is present at `p`. */
  lemma {:induction false} KeypointLabelIff(points: Keypoints, i: nat, p: Point)
    ensures Label(i, p) in KeypointMarks(points) <==> i < |points| && points[i] == Some(p)
  {
    if points != [] {
      var init := points[..|points| - 1];
      KeypointLabelIff(init, i, p);
      if i < |init| {
        assert init[i] == points[i];
      }
    }
  }

  /**
   * The keypoint copy receives only circles of the keypoint radius and labels; a
   * circle sits at `p` exactly when some landmark is present at `p`.
   */
  lemma {:induction false} KeypointDiscIff(points: Keypoints, p: Point, r: nat)
    ensures Disc(p, r) in KeypointMarks(points) <==>
            r == KeypointRadius && exists i :: 0 <= i < |points| && points[i] == Some(p)
    ensures forall k :: 0 <= k < |KeypointMarks(points)| ==> !KeypointMarks(points)[k].Line?
  {
    if points != [] {
      var init := points[..|points| - 1];
      KeypointDiscIff(init, p, r);
      if Disc(p, r) in KeypointMarks(points) && Disc(p, r) !in KeypointMarks(init) {
        assert points[|points| - 1] == Some(p);
      }
      if r == KeypointRadius && exists i :: 0 <= i < |points| && points[i] == Some(p) {
        var i :| 0 <= i < |points| && points[i] == Some(p);
        if i < |init| {
          assert init[i] == Some(p);
        }
      }
    }
  }

  /** Every label names a landmark of the list. */
  lemma {:induction false} KeypointLabelsInRange(points: Keypoints)
    ensures forall k :: 0 <= k < |KeypointMarks(points)| && KeypointMarks(points)[k].Label? ==>
              KeypointMarks(points)[k].landmark < |points|
  {
    if points != [] {
      KeypointLabelsInRange(points[..|points| - 1]);
    }
  }

  /** Among `marks`, every label names a larger landmark than every label before it. */
  predicate LabelsAscending(marks: seq<Mark>)
  {
    forall a, b :: 0 <= a < b < |marks| && marks[a].Label? && marks[b].Label? ==>
      marks[a].landmark < marks[b].landmark
  }

  /** Labels appear in increasing landmark order: landmarks are marked in index order. */
  lemma {:induction false} KeypointLabelsAscending(points: Keypoints)
    ensures LabelsAscending(KeypointMarks(points))
  {
    if points != [] {
      var init := points[..|points| - 1];
      var n := |points| - 1;
      KeypointLabelsAscending(init);
      KeypointLabelsInRange(init);
      var before: seq<Mark> := KeypointMarks(init);
      var last: seq<Mark> := LandmarkMarks(n, points[n]);
      var marks: seq<Mark> := before + last;
      assert KeypointMarks(points) == marks;
      forall a: int, b: int | 0 <= a < b < |marks| && marks[a].Label? && marks[b].Label?
        ensures marks[a].landmark < marks[b].landmark
      {
        if b >= |before| {
          assert marks[b] == last[b - |before|];
          assert a < |before|;
          assert marks[a] == before[a];
          assert before[a].Label? && before[a].landmark < n;
          assert marks[b].landmark == n by {
            assert points[n].Some? && last == [Disc(points[n].value, KeypointRadius), Label(n, points[n].value)];
          }
        } else {
          assert marks[a] == before[a] && marks[b] == before[b];
          assert before[a].landmark < before[b].landmark;
        }
      }
    }
  }
}
