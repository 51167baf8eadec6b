/**
 * The `HandPose` object of the hand-pose demo and its `draw_skeleton` step: the
 * network's confidence maps (one per landmark, taken at frame resolution) become a
 * keypoint list, marked on the keypoint copy of the frame, and the pose-pair table
 * turns that list into skeleton segments drawn on the frame itself.
 */
module HandPoseImage {
  import opened Wrappers
  import opened Drawing
  import opened Heatmap
  import opened Keypoints
  import opened Skeleton

  /** The landmark count the shipped script configures: 21 hand landmarks plus one more map. */
  const ShippedNPoints: nat := 22

  /** The pose-pair table the shipped script configures: five chains of four bones from the wrist. */
  const ShippedPosePairs: seq<Pair> := [
    Pair(0, 1), Pair(1, 2), Pair(2, 3), Pair(3, 4),
    Pair(0, 5), Pair(5, 6), Pair(6, 7), Pair(7, 8),
    Pair(0, 9), Pair(9, 10), Pair(10, 11), Pair(11, 12),
    Pair(0, 13), Pair(13, 14), Pair(14, 15), Pair(15, 16),
    Pair(0, 17), Pair(17, 18), Pair(18, 19), Pair(19, 20)
  ]

  class HandPose {
    const inputSource: string
    const protoFile: string
    const weightFile: string
    const nPoints: nat
    /** The table given to the constructor; `DrawSkeleton` does not read it (see there). */
    const posePairs: seq<Pair>
    const threshold: real

    constructor (protoFile: string, weightFile: string, nPoints: nat, posePairs: seq<Pair>, inputSource: string)
      ensures this.protoFile == protoFile && this.weightFile == weightFile && this.inputSource == inputSource
      ensures this.nPoints == nPoints && this.posePairs == posePairs
      ensures threshold == DefaultThreshold
    {
      this.inputSource := inputSource;
      this.protoFile := protoFile;
      this.weightFile := weightFile;
      this.nPoints := nPoints;
      this.posePairs := posePairs;
      this.threshold := DefaultThreshold;
    }

    /**
     * The first loop of `draw_skeleton`. For each landmark it asks the max-finder
     * `findMax` for its map's peak, marks and keeps the peak's location when the
     * peak is strictly above the threshold, and keeps `None` otherwise.
     */
    method LocateKeypoints(frameCopy: Canvas, maps: seq<ProbMap>, findMax: ProbMap -> Peak)
      returns (points: Keypoints)
      requires nPoints <= |maps|
      requires forall i :: 0 <= i < nPoints ==> IsMaxPeak(maps[i], findMax(maps[i]))
      modifies frameCopy
      ensures |points| == nPoints
      ensures forall i :: 0 <= i < nPoints ==> points[i] == Keep(findMax(maps[i]), threshold)
      ensures forall i :: 0 <= i < nPoints ==> FollowsThresholdRule(maps[i], threshold, points[i])
      ensures frameCopy.marks == old(frameCopy.marks) + KeypointMarks(points)
    {
      points := [];
      for i := 0 to nPoints
        invariant |points| == i
        invariant forall k :: 0 <= k < i ==> points[k] == Keep(findMax(maps[k]), threshold)
        invariant frameCopy.marks == old(frameCopy.marks) + KeypointMarks(points)
      {
        var probMap := maps[i];
        var peak := findMax(probMap);
        var entry: Option<Point>;
        if peak.value > threshold {
          var point := Point(peak.loc.x, peak.loc.y);
          frameCopy.Circle(point, KeypointRadius);
          frameCopy.PutText(i, point);
          entry := Some(point);
        } else {
          entry := None;
        }
        assert (points + [entry])[..i] == points;
        points := points + [entry];
      }
      forall i | 0 <= i < nPoints
        ensures FollowsThresholdRule(maps[i], threshold, points[i])
      {
        KeepFollowsThresholdRule(maps[i], findMax(maps[i]), threshold);
      }
    }

    /**
     * The second loop of `draw_skeleton`: for each pair, in table order, look its
     * landmarks up Python-style and, when both are present, draw the segment and a
     * circle on each end; stop with `IndexError` at the first lookup outside the list.
     * Specified by the pair-by-pair reading `RunPairs`; `RunPairsMeetsSpec` relates
     * that to the declarative description.
     */
    method DrawPairs(frame: Canvas, points: Keypoints, pairs: seq<Pair>) returns (outcome: Outcome)
      modifies frame
      ensures outcome == RunPairs(points, pairs).outcome
      ensures frame.marks == old(frame.marks) + RunPairs(points, pairs).marks
    {
      ghost var run := RunPairs(points, pairs);
      var n := |points|;
      for j := 0 to |pairs|
        invariant run.outcome == RunPairs(points, pairs[j..]).outcome
        invariant old(frame.marks) + run.marks == frame.marks + RunPairs(points, pairs[j..]).marks
      {
        RunPairsFrom(points, pairs, j);
        var pair := pairs[j];
        if !ValidIndex(n, pair.partA) {
          return IndexError(pair.partA);
        }
        var pointA := points[Resolve(n, pair.partA)];
        if pointA.Some? {
          if !ValidIndex(n, pair.partB) {
            return IndexError(pair.partB);
          }
          var pointB := points[Resolve(n, pair.partB)];
          if pointB.Some? {
            frame.Line(pointA.value, pointB.value);
            frame.Circle(pointA.value, JointRadius);
            frame.Circle(pointB.value, JointRadius);
          }
        }
      }
      assert pairs[|pairs|..] == [];
      return Completed;
    }

    /**
     * `draw_skeleton`. The pair table is a parameter: the source's second loop reads
     * the script-level table, not the one this object was built with. The keypoint
     * list is local to the source; it is returned here as a ghost so the contract can
     * speak of it.
     */
    method DrawSkeleton(frame: Canvas, frameCopy: Canvas, maps: seq<ProbMap>, findMax: ProbMap -> Peak,
                        scriptPosePairs: seq<Pair>)
      returns (outcome: Outcome, ghost points: Keypoints)
      requires frame != frameCopy
      requires nPoints <= |maps|
      requires forall i :: 0 <= i < nPoints ==> IsMaxPeak(maps[i], findMax(maps[i]))
      modifies frame, frameCopy
      ensures |points| == nPoints
      ensures forall i :: 0 <= i < nPoints ==> points[i] == Keep(findMax(maps[i]), threshold)
      ensures forall i :: 0 <= i < nPoints ==> FollowsThresholdRule(maps[i], threshold, points[i])
      ensures frameCopy.marks == old(frameCopy.marks) + KeypointMarks(points)
      ensures outcome == SkeletonOutcome(points, scriptPosePairs)
      ensures frame.marks == old(frame.marks) + SkeletonMarks(points, scriptPosePairs)
    {
      var found := LocateKeypoints(frameCopy, maps, findMax);
      points := found;
      outcome := DrawPairs(frame, found, scriptPosePairs);
      RunPairsMeetsSpec(found, scriptPosePairs);
    }
  }

  /** The object the shipped script builds (its inference and file I/O are not modelled). */
  method NewShippedHandPose() returns (hp: HandPose)
    ensures fresh(hp)
    ensures hp.nPoints == ShippedNPoints && hp.posePairs == ShippedPosePairs
    ensures hp.threshold == DefaultThreshold
    ensures hp.inputSource == "right-frontal.jpg"
  {
    hp := new HandPose("hand/pose_deploy.prototxt", "hand/pose_iter_102000.caffemodel",
                       ShippedNPoints, ShippedPosePairs, "right-frontal.jpg");
  }

  /**
   * The shipped table has 20 pairs whose indices all lie in `0 .. 20`, below the
   * landmark count 22, and landmark 21 belongs to no pair.
   */
  lemma ShippedPosePairsInRange()
    ensures |ShippedPosePairs| == 20
    ensures forall j :: 0 <= j < |ShippedPosePairs| ==>
              0 <= ShippedPosePairs[j].partA <= 20 && 0 <= ShippedPosePairs[j].partB <= 20
    ensures forall j :: 0 <= j < |ShippedPosePairs| ==>
              ShippedPosePairs[j].partA != 21 && ShippedPosePairs[j].partB != 21
  {
  }

  /** With the shipped configuration the skeleton loop always completes, whatever is detected. */
  lemma ShippedSkeletonCompletes(points: Keypoints)
    requires |points| == ShippedNPoints
    ensures SkeletonOutcome(points, ShippedPosePairs) == Completed
    ensures SkeletonMarks(points, ShippedPosePairs) == SegmentMarks(Segments(points, ShippedPosePairs))
  {
    ShippedPosePairsInRange();
    InRangeTableCompletes(points, ShippedPosePairs);
  }

  /**
   * Three landmarks with the middle one undetected and the table `[0,1], [1,2], [0,2]`:
   * only the last pair is drawn.
   */
  lemma ThreeLandmarkExample()
    ensures var points := [Some(Point(20, 20)), None, Some(Point(10, 10))];
            var pairs := [Pair(0, 1), Pair(1, 2), Pair(0, 2)];
            Segments(points, pairs) == [Segment(Point(20, 20), Point(10, 10))] &&
            SkeletonOutcome(points, pairs) == Completed
  {
    var points := [Some(Point(20, 20)), None, Some(Point(10, 10))];
    var pairs := [Pair(0, 1), Pair(1, 2), Pair(0, 2)];
    SegmentsConcat(points, [Pair(0, 1), Pair(1, 2)], [Pair(0, 2)]);
    SegmentsConcat(points, [Pair(0, 1)], [Pair(1, 2)]);
    assert [Pair(0, 1)] + [Pair(1, 2)] + [Pair(0, 2)] == pairs;
    InRangeTableCompletes(points, pairs);
  }

  /**
   * A landmark detected at the origin `(0, 0)` counts as present and is joined like
   * any other. In Python this holds because a non-empty tuple is true whatever its
   * coordinates; here presence is `Some?`, so no location, the origin included, can
   * make a detected landmark absent. The first clause states that for every pair of
   * locations, the second for the origin in particular.
   */
  lemma OriginLandmarkIsPresent()
    ensures forall p: Point, q: Point :: StepOf([Some(p), Some(q)], Pair(0, 1)) == Draw(Segment(p, q))
    ensures forall q: Point :: Segments([Some(Point(0, 0)), Some(q)], [Pair(0, 1)]) == [Segment(Point(0, 0), q)]
  {
  }
}
