/**
 * The skeleton pass of `draw_skeleton`: the pose-pair table is walked in order and a
 * segment is drawn for each pair whose two landmarks are both present. Lookups use
 * Python list indexing, so a negative index counts from the end, an index outside
 * `-n .. n-1` raises `IndexError`, and `points[a] and points[b]` never reads
 * `points[b]` when `points[a]` is `None`.
 */
module Skeleton {
  import opened Wrappers
  import opened Drawing
  import opened Keypoints

  /** Radius of the filled circles drawn on both ends of a skeleton segment. */
  const JointRadius: nat := 5

  /** One row of the pose-pair table: the two landmarks a segment joins. */
  datatype Pair = Pair(partA: int, partB: int)

  /** A segment of the skeleton, between two detected landmark locations. */
  datatype Segment = Segment(from: Point, to: Point)

  /** How the skeleton pass ends: it reached the end of the table, or a lookup raised `IndexError`. */
  datatype Outcome = Completed | IndexError(index: int)

  /** What one pair does: draws a segment, is skipped, or fails on an out-of-range index. */
  datatype Step = Draw(segment: Segment) | Skip | Fail(index: int)

  /** `k` is an index Python accepts for a list of length `n`. */
  predicate ValidIndex(n: nat, k: int)
  {
    0 <= k + n && k < n
  }

  /** The list position a valid Python index denotes. */
  function Resolve(n: nat, k: int): (pos: nat)
    requires ValidIndex(n, k)
    ensures pos < n
    ensures pos == k || pos == k + n
  {
    if k < 0 then n + k else k
  }

  /** Both landmarks of `pair` can be looked up and are present. */
  predicate BothPresent(points: Keypoints, pair: Pair)
  {
    ValidIndex(|points|, pair.partA) && ValidIndex(|points|, pair.partB) &&
    points[Resolve(|points|, pair.partA)].Some? && points[Resolve(|points|, pair.partB)].Some?
  }

  /** The segment joining the two present landmarks of `pair`. */
  function PairSegment(points: Keypoints, pair: Pair): Segment
    requires BothPresent(points, pair)
  {
    Segment(points[Resolve(|points|, pair.partA)].value, points[Resolve(|points|, pair.partB)].value)
  }

  /** The effect of one iteration of the skeleton loop. */
  function StepOf(points: Keypoints, pair: Pair): Step
  {
    var n := |points|;
    if !ValidIndex(n, pair.partA) then Fail(pair.partA)
    else if points[Resolve(n, pair.partA)].None? then Skip
    else if !ValidIndex(n, pair.partB) then Fail(pair.partB)
    else if points[Resolve(n, pair.partB)].None? then Skip
    else Draw(Segment(points[Resolve(n, pair.partA)].value, points[Resolve(n, pair.partB)].value))
  }

  /** Looking up the landmarks of `pair` raises `IndexError`. */
  predicate Fails(points: Keypoints, pair: Pair)
  {
    StepOf(points, pair).Fail?
  }

  /** The segment a step contributes, if any. */
  function StepSegments(s: Step): seq<Segment>
  {
    if s.Draw? then [s.segment] else []
  }

  /** The segments the pairs call for, in table order, ignoring failing pairs. */
  function Segments(points: Keypoints, pairs: seq<Pair>): seq<Segment>
  {
    if pairs == [] then []
    else Segments(points, pairs[..|pairs| - 1]) + StepSegments(StepOf(points, pairs[|pairs| - 1]))
  }

  /** The position of the first pair whose lookup raises `IndexError`, if any. */
  function FirstFailure(points: Keypoints, pairs: seq<Pair>): (r: Option<nat>)
    ensures r.Some? ==> r.value < |pairs| && Fails(points, pairs[r.value])
    ensures r.Some? ==> forall j :: 0 <= j < r.value ==> !Fails(points, pairs[j])
    ensures r.None? ==> forall j :: 0 <= j < |pairs| ==> !Fails(points, pairs[j])
  {
    if pairs == [] then None
    else
      var init := pairs[..|pairs| - 1];
      var earlier := FirstFailure(points, init);
      if earlier.Some? then earlier
      else if Fails(points, pairs[|pairs| - 1]) then Some(|pairs| - 1)
      else None
  }

  /** How many pairs the loop gets through before it stops. */
  function PairsReached(points: Keypoints, pairs: seq<Pair>): (k: nat)
    ensures k <= |pairs|
  {
    match FirstFailure(points, pairs)
    case None => |pairs|
    case Some(j) => j
  }

  /** The outcome of the skeleton loop over the whole table. */
  function SkeletonOutcome(points: Keypoints, pairs: seq<Pair>): Outcome
  {
    match FirstFailure(points, pairs)
    case None => Completed
    case Some(j) => IndexError(StepOf(points, pairs[j]).index)
  }

  /** The three drawing calls for each segment: the line, then a circle on each end. */
  function SegmentMarks(segments: seq<Segment>): seq<Mark>
  {
    if segments == [] then []
    else
      var s := segments[|segments| - 1];
      SegmentMarks(segments[..|segments| - 1]) + [Line(s.from, s.to), Disc(s.from, JointRadius), Disc(s.to, JointRadius)]
  }

  /** Everything the skeleton loop draws on the frame, up to the pair that fails, if any. */
  function SkeletonMarks(points: Keypoints, pairs: seq<Pair>): seq<Mark>
  {
    SegmentMarks(Segments(points, pairs[..PairsReached(points, pairs)]))
  }

  /** A pair draws exactly when both its landmarks are present, and then joins exactly them. */
  lemma StepDrawsIffBothPresent(points: Keypoints, pair: Pair)
    ensures StepOf(points, pair).Draw? <==> BothPresent(points, pair)
    ensures BothPresent(points, pair) ==> StepOf(points, pair).segment == PairSegment(points, pair)
  {
  }

  /**
   * `and` short-circuits: when the first landmark is present-checked and absent, the
   * second index is never looked up, so even an out-of-range second index is skipped.
   */
  lemma AbsentFirstEndpointSkipsPair(points: Keypoints, pair: Pair)
    requires ValidIndex(|points|, pair.partA) && points[Resolve(|points|, pair.partA)] == None
    ensures StepOf(points, pair) == Skip
  {
  }

  /** Segments follow the table: the segments of two tables in a row are those of each, in order. */
  lemma {:induction false} SegmentsConcat(points: Keypoints, first: seq<Pair>, second: seq<Pair>)
    ensures Segments(points, first + second) == Segments(points, first) + Segments(points, second)
  {
    if second == [] {
      assert first + second == first;
    } else {
      var init := second[..|second| - 1];
      SegmentsConcat(points, first, init);
      assert (first + second)[..|first + second| - 1] == first + init;
      assert (first + second)[|first + second| - 1] == second[|second| - 1];
    }
  }

  /**
   * A segment is drawn for some pair exactly when that pair's landmarks are both
   * present, and it joins exactly those two landmarks: no segment ever touches an
   * absent landmark.
   */
  lemma {:induction false} SegmentsAreDrawnPairs(points: Keypoints, pairs: seq<Pair>, s: Segment)
    ensures s in Segments(points, pairs) <==>
            exists j :: 0 <= j < |pairs| && BothPresent(points, pairs[j]) && s == PairSegment(points, pairs[j])
  {
    if pairs != [] {
      var init := pairs[..|pairs| - 1];
      var n := |pairs| - 1;
      SegmentsAreDrawnPairs(points, init, s);
      StepDrawsIffBothPresent(points, pairs[n]);
      if s in Segments(points, pairs) && s !in Segments(points, init) {
        assert BothPresent(points, pairs[n]) && s == PairSegment(points, pairs[n]);
      }
      if exists j :: 0 <= j < |pairs| && BothPresent(points, pairs[j]) && s == PairSegment(points, pairs[j]) {
        var j :| 0 <= j < |pairs| && BothPresent(points, pairs[j]) && s == PairSegment(points, pairs[j]);
        if j < n {
          assert init[j] == pairs[j];
        }
      }
    }
  }

  /** Some landmark of the list is present at `p`. */
  ghost predicate Detected(points: Keypoints, p: Point)
  {
    exists i :: 0 <= i < |points| && points[i] == Some(p)
  }

  /** Both ends of every segment are the locations of present landmarks. */
  lemma SegmentEndsArePresent(points: Keypoints, pairs: seq<Pair>, s: Segment)
    requires s in Segments(points, pairs)
    ensures Detected(points, s.from) && Detected(points, s.to)
  {
    SegmentsAreDrawnPairs(points, pairs, s);
    var j :| 0 <= j < |pairs| && BothPresent(points, pairs[j]) && s == PairSegment(points, pairs[j]);
    var a := Resolve(|points|, pairs[j].partA);
    var b := Resolve(|points|, pairs[j].partB);
    assert points[a] == Some(s.from) && points[b] == Some(s.to);
  }

  /** Pairs never produce more than one segment each. */
  lemma {:induction false} SegmentsAtMostPairs(points: Keypoints, pairs: seq<Pair>)
    ensures |Segments(points, pairs)| <= |pairs|
  {
    if pairs != [] {
      SegmentsAtMostPairs(points, pairs[..|pairs| - 1]);
    }
  }

  /** With every landmark present and every index in range, each pair draws its segment, in table order. */
  lemma {:induction false} AllPresentDrawsEveryPair(points: Keypoints, pairs: seq<Pair>)
    requires forall i :: 0 <= i < |points| ==> points[i].Some?
    requires forall j :: 0 <= j < |pairs| ==> ValidIndex(|points|, pairs[j].partA) && ValidIndex(|points|, pairs[j].partB)
    ensures |Segments(points, pairs)| == |pairs|
    ensures forall j :: 0 <= j < |pairs| ==> Segments(points, pairs)[j] == PairSegment(points, pairs[j])
  {
    if pairs != [] {
      var init := pairs[..|pairs| - 1];
      var last := pairs[|pairs| - 1];
      AllPresentDrawsEveryPair(points, init);
      StepDrawsIffBothPresent(points, last);
      assert BothPresent(points, last);
      var segs := Segments(points, pairs);
      assert segs == Segments(points, init) + [PairSegment(points, last)];
      forall j | 0 <= j < |pairs|
        ensures segs[j] == PairSegment(points, pairs[j])
      {
        if j < |init| {
          assert init[j] == pairs[j];
        }
      }
    }
  }

  /** With every landmark absent nothing is drawn. */
  lemma {:induction false} AllAbsentDrawsNothing(points: Keypoints, pairs: seq<Pair>)
    requires forall i :: 0 <= i < |points| ==> points[i] == None
    ensures Segments(points, pairs) == []
  {
    if pairs != [] {
      AllAbsentDrawsNothing(points, pairs[..|pairs| - 1]);
    }
  }

  /** A table whose indices are all valid for the list never raises `IndexError`. */
  lemma InRangeTableCompletes(points: Keypoints, pairs: seq<Pair>)
    requires forall j :: 0 <= j < |pairs| ==> ValidIndex(|points|, pairs[j].partA) && ValidIndex(|points|, pairs[j].partB)
    ensures FirstFailure(points, pairs) == None
    ensures SkeletonOutcome(points, pairs) == Completed
    ensures SkeletonMarks(points, pairs) == SegmentMarks(Segments(points, pairs))
  {
    CompletesWithoutFailure(points, pairs);
  }

  /** The first failing pair is determined: it is the one that fails with none failing before it. */
  lemma FirstFailureAt(points: Keypoints, pairs: seq<Pair>, j: nat)
    requires j < |pairs| && Fails(points, pairs[j])
    requires forall k :: 0 <= k < j ==> !Fails(points, pairs[k])
    ensures FirstFailure(points, pairs) == Some(j)
  {
  }

  /** When pair `j` is the first to fail, the loop stops there, having drawn the pairs before it. */
  lemma StopsAtFirstFailure(points: Keypoints, pairs: seq<Pair>, j: nat)
    requires j < |pairs| && Fails(points, pairs[j])
    requires forall k :: 0 <= k < j ==> !Fails(points, pairs[k])
    ensures FirstFailure(points, pairs) == Some(j)
    ensures SkeletonOutcome(points, pairs) == IndexError(StepOf(points, pairs[j]).index)
    ensures SkeletonMarks(points, pairs) == SegmentMarks(Segments(points, pairs[..j]))
  {
  }

  /** When no pair fails, the loop completes, having drawn every pair's segment. */
  lemma CompletesWithoutFailure(points: Keypoints, pairs: seq<Pair>)
    requires forall k :: 0 <= k < |pairs| ==> !Fails(points, pairs[k])
    ensures SkeletonOutcome(points, pairs) == Completed
    ensures SkeletonMarks(points, pairs) == SegmentMarks(Segments(points, pairs))
  {
    assert pairs[..|pairs|] == pairs;
  }

  /** Each segment gives three drawing calls. */
  lemma {:induction false} SegmentMarksLength(segments: seq<Segment>)
    ensures |SegmentMarks(segments)| == 3 * |segments|
  {
    if segments != [] {
      SegmentMarksLength(segments[..|segments| - 1]);
    }
  }

  /** Each segment gives three calls in a row: its line, then the circles on its two ends. */
  lemma {:induction false} SegmentMarksLayout(segments: seq<Segment>, k: nat)
    requires k < |segments|
    ensures |SegmentMarks(segments)| == 3 * |segments|
    ensures SegmentMarks(segments)[3 * k] == Line(segments[k].from, segments[k].to)
    ensures SegmentMarks(segments)[3 * k + 1] == Disc(segments[k].from, JointRadius)
    ensures SegmentMarks(segments)[3 * k + 2] == Disc(segments[k].to, JointRadius)
  {
    var init := segments[..|segments| - 1];
    if k < |init| {
      SegmentMarksLayout(init, k);
    } else if init != [] {
      SegmentMarksLayout(init, 0);
    }
  }

  /** The marks of two segment lists drawn one after the other. */
  lemma {:induction false} SegmentMarksConcat(first: seq<Segment>, second: seq<Segment>)
    ensures SegmentMarks(first + second) == SegmentMarks(first) + SegmentMarks(second)
  {
    if second == [] {
      assert first + second == first;
    } else {
      var init := second[..|second| - 1];
      SegmentMarksConcat(first, init);
      assert (first + second)[..|first + second| - 1] == first + init;
      assert (first + second)[|first + second| - 1] == second[|second| - 1];
    }
  }

  /**
   * Everything the skeleton loop draws uses detected landmarks only: each line joins
   * two of them and each circle, of the joint radius, sits on one. Nothing is labelled.
   */
  lemma SkeletonMarksUseDetectedPoints(points: Keypoints, pairs: seq<Pair>, k: nat)
    requires k < |SkeletonMarks(points, pairs)|
    ensures match SkeletonMarks(points, pairs)[k]
            case Line(a, b) => Detected(points, a) && Detected(points, b)
            case Disc(c, r) => r == JointRadius && Detected(points, c)
            case Label(_, _) => false
  {
    var drawn := pairs[..PairsReached(points, pairs)];
    var segments := Segments(points, drawn);
    SegmentMarksLength(segments);
    var q := k / 3;
    SegmentMarksLayout(segments, q);
    SegmentEndsArePresent(points, drawn, segments[q]);
    assert k == 3 * q || k == 3 * q + 1 || k == 3 * q + 2;
  }

  /** What the skeleton loop produces: how it ends and the marks it leaves on the frame. */
  datatype Run = Run(outcome: Outcome, marks: seq<Mark>)

  /**
   * The skeleton loop read pair by pair from the front of the table: the reference
   * the imperative loop is checked against.
   */
  function RunPairs(points: Keypoints, pairs: seq<Pair>): Run
  {
    if pairs == [] then Run(Completed, [])
    else
      match StepOf(points, pairs[0])
      case Fail(k) => Run(IndexError(k), [])
      case Skip => RunPairs(points, pairs[1..])
      case Draw(s) =>
        var rest := RunPairs(points, pairs[1..]);
        Run(rest.outcome, SegmentMarks([s]) + rest.marks)
  }

  /** Reading the table from position `j`: the step of pair `j`, then the rest. */
  lemma RunPairsFrom(points: Keypoints, pairs: seq<Pair>, j: nat)
    requires j < |pairs|
    ensures RunPairs(points, pairs[j..]) ==
            match StepOf(points, pairs[j])
            case Fail(k) => Run(IndexError(k), [])
            case Skip => RunPairs(points, pairs[j + 1..])
            case Draw(s) => Run(RunPairs(points, pairs[j + 1..]).outcome,
                                [Line(s.from, s.to), Disc(s.from, JointRadius), Disc(s.to, JointRadius)] +
                                RunPairs(points, pairs[j + 1..]).marks)
  {
    var from := pairs[j..];
    assert from != [] && from[0] == pairs[j] && from[1..] == pairs[j + 1..];
    if StepOf(points, pairs[j]).Draw? {
      var s := StepOf(points, pairs[j]).segment;
      assert [s][..0] == [];
      assert SegmentMarks([s]) == [Line(s.from, s.to), Disc(s.from, JointRadius), Disc(s.to, JointRadius)];
    }
  }

  /** Prepending a pair that does not fail shifts the first failure by one. */
  lemma FirstFailureCons(points: Keypoints, pair: Pair, rest: seq<Pair>)
    requires !Fails(points, pair)
    ensures FirstFailure(points, [pair] + rest) ==
            match FirstFailure(points, rest) case None => None case Some(j) => Some(j + 1)
  {
    var pairs := [pair] + rest;
    match FirstFailure(points, rest)
    case None =>
      forall k | 0 <= k < |pairs| ensures !Fails(points, pairs[k]) {
        if k > 0 { assert pairs[k] == rest[k - 1]; }
      }
    case Some(j) =>
      assert Fails(points, pairs[j + 1]);
      forall k | 0 <= k < j + 1 ensures !Fails(points, pairs[k]) {
        if k > 0 { assert pairs[k] == rest[k - 1]; }
      }
      FirstFailureAt(points, pairs, j + 1);
  }

  /** A first pair that does not fail leaves the outcome to the rest of the table. */
  lemma SkeletonOutcomeCons(points: Keypoints, pair: Pair, rest: seq<Pair>)
    requires !Fails(points, pair)
    ensures SkeletonOutcome(points, [pair] + rest) == SkeletonOutcome(points, rest)
  {
    FirstFailureCons(points, pair, rest);
    match FirstFailure(points, rest)
    case None =>
    case Some(j) =>
      assert ([pair] + rest)[j + 1] == rest[j];
  }

  /** A first pair that does not fail draws its own marks, then the rest of the table draws. */
  lemma SkeletonMarksCons(points: Keypoints, pair: Pair, rest: seq<Pair>)
    requires !Fails(points, pair)
    ensures SkeletonMarks(points, [pair] + rest) ==
            SegmentMarks(StepSegments(StepOf(points, pair))) + SkeletonMarks(points, rest)
  {
    var pairs := [pair] + rest;
    FirstFailureCons(points, pair, rest);
    var reached := PairsReached(points, rest);
    assert PairsReached(points, pairs) == reached + 1;
    assert pairs[..reached + 1] == [pair] + rest[..reached];
    SegmentsConcat(points, [pair], rest[..reached]);
    assert Segments(points, [pair]) == StepSegments(StepOf(points, pair)) by {
      assert [pair][..0] == [];
    }
    SegmentMarksConcat(StepSegments(StepOf(points, pair)), Segments(points, rest[..reached]));
  }

  /** Read from the front, a first pair that does not fail draws its marks before the rest. */
  lemma RunPairsCons(points: Keypoints, pair: Pair, rest: seq<Pair>)
    requires !Fails(points, pair)
    ensures RunPairs(points, [pair] + rest) ==
            Run(RunPairs(points, rest).outcome, SegmentMarks(StepSegments(StepOf(points, pair))) + RunPairs(points, rest).marks)
  {
    assert ([pair] + rest)[0] == pair && ([pair] + rest)[1..] == rest;
    if StepOf(points, pair).Skip? {
      assert SegmentMarks([]) == [];
    }
  }

  /**
   * Read from the front, the loop ends as `SkeletonOutcome` says and draws exactly
   * the marks of the segments before the first failing pair, in table order.
   */
  lemma {:induction false} RunPairsMeetsSpec(points: Keypoints, pairs: seq<Pair>)
    ensures RunPairs(points, pairs) == Run(SkeletonOutcome(points, pairs), SkeletonMarks(points, pairs))
  {
    if pairs == [] {
      CompletesWithoutFailure(points, pairs);
    } else {
      var pair, rest := pairs[0], pairs[1..];
      assert pairs == [pair] + rest;
      if Fails(points, pair) {
        StopsAtFirstFailure(points, pairs, 0);
        assert pairs[..0] == [];
      } else {
        RunPairsMeetsSpec(points, rest);
        RunPairsCons(points, pair, rest);
        SkeletonOutcomeCons(points, pair, rest);
        SkeletonMarksCons(points, pair, rest);
      }
    }
  }
}
