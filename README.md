# Hand pose: keypoint selection and skeleton assembly

A Dafny model of the `draw_skeleton` step of the single-image hand-pose demo
(`HandPose/handPoseImage.py`). The network produces one confidence map per hand
landmark. `draw_skeleton` does two things in order:

1. **Keypoint pass.** For each landmark `i` in `0 .. nPoints-1` it asks the
   max-finder for the map's global maximum. When that maximum is strictly above
   the object's threshold (0.1), it draws a filled circle and the label `i` at the
   location on the keypoint copy of the frame and appends the location to
   `points`. Otherwise it appends `None`.
2. **Skeleton pass.** It walks the pose-pair table in order. For each pair whose
   two landmarks are both present, it draws a line between them and a filled
   circle on each end, on the frame itself.

The model is split into modules:

- `Wrappers`: the `Option` type standing for Python's `None`.
- `Drawing`: pixel points, drawing calls (`Mark`), and `Canvas`. A `Canvas` is a
  class whose `marks` field logs, in order, every drawing call made on an image.
- `Heatmap`: confidence maps (`seq<seq<real>>`, indexed row then column) and the
  contract of the max-finder (`IsMaxPeak`).
- `Keypoints`: the threshold rule and the marks of the keypoint pass.
- `Skeleton`: the pair table, Python list indexing, the per-pair step, and the
  declarative description of the skeleton pass: its segments, its first failing
  pair, and its marks. It also holds a front-to-back reference reading of the
  loop (`RunPairs`) and the lemma that the two agree.
- `HandPoseImage`: the `HandPose` class and its two loops as methods. Also the
  shipped landmark count and pair table, and lemmas about them.

Points the model makes explicit:

- **Max-finder.** `cv2.minMaxLoc` is a foreign call. It is a parameter
  `findMax: ProbMap -> Peak`, and the methods require only that, for the maps
  actually used, it returns a global-maximum location and the value there. No
  tie-break is fixed. Presence and the confidence found do not depend on which
  maximum is reported (`ThresholdRuleFixesPresence`).
- **Coordinates.** `minMaxLoc` reports an integer pixel location, so the
  `int(...)` conversions at lines 37-42 leave it unchanged. The model copies the
  coordinates as they are.
- **Strict threshold.** A maximum equal to the threshold gives `None`.
- **Presence means "is not `None`".** A landmark at `(0, 0)` is a non-empty
  tuple, which Python treats as true, so it is joined like any other landmark.
- **Pair lookups follow Python list indexing.** A negative index counts from the
  end of `points`. An index outside `-n .. n-1` raises `IndexError`. `points[a] and
  points[b]` never looks up `b` when `points[a]` is `None`. An `IndexError` ends
  the pass: the segments of the earlier pairs stay drawn. The shipped table (20
  pairs over landmarks 0..20, with `nPoints = 22`) never fails. Landmark 21 is in
  no pair.
- **Which pair table.** The second loop reads the script-level `POSE_PAIRS`
  (line 46), not the table stored in the object (line 12). `DrawSkeleton`
  therefore takes the table as the parameter `scriptPosePairs`, and the
  `posePairs` field is not read. In the shipped script the two are the same list
  (lines 82-84).

## Model

| member | source | states |
|---|---|---|
| `HandPoseImage.HandPose.constructor` | HandPose/handPoseImage.py:8-13 | The object keeps the model files, landmark count, pair table and input source it is given, and its threshold starts at 0.1. |
| `HandPoseImage.HandPose.LocateKeypoints` | HandPose/handPoseImage.py:28-44 | `points` has exactly `nPoints` entries. Entry `i` comes from map `i`'s peak: the peak location if the peak is strictly above the threshold, else `None`. Each entry obeys the threshold rule on its map. The keypoint copy gains exactly `KeypointMarks(points)`. |
| `HandPoseImage.HandPose.DrawPairs` | HandPose/handPoseImage.py:46-53 | The outcome and the marks added to the frame are exactly those of `RunPairs`, the pair-by-pair reading of the table. By `RunPairsMeetsSpec`, the pass completes or raises `IndexError` at the first failing pair, and the frame gains the line-and-two-circles marks of the segments before that point, in table order. |
| `HandPoseImage.HandPose.DrawSkeleton` | HandPose/handPoseImage.py:25-55 | Both passes together on distinct images. The keypoint list follows the threshold rule, the keypoint copy gains the keypoint marks, and the frame gains the skeleton marks for the script-level pair table, with the outcome of that pass. |
| `HandPoseImage.NewShippedHandPose` | HandPose/handPoseImage.py:77-84 | The script's object has 22 landmarks, the shipped 20-pair table, threshold 0.1 and input `right-frontal.jpg`. |
| `HandPoseImage.ShippedPosePairsInRange` | HandPose/handPoseImage.py:81-83 | The shipped table has 20 pairs. Every index lies in 0..20, and landmark 21 appears in no pair. |
| `HandPoseImage.ShippedSkeletonCompletes` | HandPose/handPoseImage.py:46-53 | With 22 landmarks and the shipped table, the skeleton pass never raises and draws the segments of the whole table. |
| `HandPoseImage.ThreeLandmarkExample` | HandPose/handPoseImage.py:46-53 | With landmark 1 absent and table `[0,1],[1,2],[0,2]`, only the segment from landmark 0 to landmark 2 is drawn, and the pass completes. |
| `HandPoseImage.OriginLandmarkIsPresent` | HandPose/handPoseImage.py:49-50 | Every detected landmark is present whatever its location, and any two detected landmarks are joined by their pair; in particular a landmark at `(0, 0)` is joined to any partner. |
| `Drawing.Canvas.Circle` | HandPose/handPoseImage.py:37-38 | A filled circle is appended to the image's drawing log and nothing else changes. |
| `Drawing.Canvas.PutText` | HandPose/handPoseImage.py:39-40 | A landmark label is appended to the image's drawing log and nothing else changes. |
| `Drawing.Canvas.Line` | HandPose/handPoseImage.py:50 | A line is appended to the image's drawing log and nothing else changes. |
| `Heatmap.MaxPeaksAgree` | HandPose/handPoseImage.py:33-34 | Any two answers the max-finder may give for one map report the same maximum value. |
| `Heatmap.PeakAboveIffSomeCellAbove` | HandPose/handPoseImage.py:34-36 | The reported maximum exceeds `t` if and only if some cell of the map does. |
| `Keypoints.KeepFollowsThresholdRule` | HandPose/handPoseImage.py:33-44 | Whatever maximum is reported, an absent entry means no cell is above the threshold, and a present entry is a global-maximum location strictly above it (the reported one). |
| `Keypoints.PeakAtThresholdIsAbsent` | HandPose/handPoseImage.py:36-44 | A maximum exactly equal to the threshold gives `None`, even though a cell of the map reaches the threshold. |
| `Keypoints.ThresholdRuleFixesPresence` | HandPose/handPoseImage.py:33-44 | Two entries that obey the rule for the same map agree on presence and on the confidence at their locations. The result does not depend on the tie-break. |
| `Keypoints.AllBelowThresholdAllAbsent` | HandPose/handPoseImage.py:36-44 | If no map has a cell above the threshold, every entry is `None`. |
| `Keypoints.KeypointLabelIff` | HandPose/handPoseImage.py:36-42 | The keypoint copy carries label `i` at `p` if and only if entry `i` is present at `p`. Absent landmarks are not labelled. |
| `Keypoints.KeypointDiscIff` | HandPose/handPoseImage.py:37-38 | The keypoint copy carries a circle at `p` if and only if some landmark is present at `p`. Every such circle has radius 6, and no lines are drawn on the copy. |
| `Keypoints.KeypointLabelsInRange` | HandPose/handPoseImage.py:29-40 | Every label names a landmark index below the list length. |
| `Keypoints.KeypointLabelsAscending` | HandPose/handPoseImage.py:29-40 | Labels appear in strictly increasing landmark order, so landmarks are marked in index order. |
| `Skeleton.FirstFailure` | HandPose/handPoseImage.py:46-49 | Returns the position of the first pair whose lookup raises, with every earlier pair not raising, or `None` when no pair raises. |
| `Skeleton.StepDrawsIffBothPresent` | HandPose/handPoseImage.py:49-50 | A pair draws if and only if both its landmarks can be looked up and are present. The segment then joins exactly those two locations. |
| `Skeleton.AbsentFirstEndpointSkipsPair` | HandPose/handPoseImage.py:49 | When the first landmark is absent the pair is skipped, even if its second index is out of range. |
| `Skeleton.SegmentsConcat` | HandPose/handPoseImage.py:46-50 | Segments follow table order: the segments of two tables in a row are those of the first followed by those of the second. |
| `Skeleton.SegmentsAreDrawnPairs` | HandPose/handPoseImage.py:46-50 | A segment is produced if and only if some pair of the table has both landmarks present and joins them. |
| `Skeleton.SegmentEndsArePresent` | HandPose/handPoseImage.py:49-53 | Both ends of every segment are locations of present landmarks. |
| `Skeleton.SegmentsAtMostPairs` | HandPose/handPoseImage.py:46-50 | There are never more segments than pairs. |
| `Skeleton.AllPresentDrawsEveryPair` | HandPose/handPoseImage.py:46-50 | With every landmark present and all indices valid, segment `j` is exactly pair `j`'s segment, for every pair. |
| `Skeleton.AllAbsentDrawsNothing` | HandPose/handPoseImage.py:46-50 | With every landmark absent, no segment is produced. |
| `Skeleton.InRangeTableCompletes` | HandPose/handPoseImage.py:46-49 | A table whose indices are all valid never raises, and the pass draws the segments of the whole table. |
| `Skeleton.StopsAtFirstFailure` | HandPose/handPoseImage.py:46-49 | If pair `j` is the first to raise, the pass ends with `IndexError` for that pair's bad index, after drawing only the pairs before `j`. |
| `Skeleton.CompletesWithoutFailure` | HandPose/handPoseImage.py:46-53 | If no pair raises, the pass completes and draws the segments of the whole table. |
| `Skeleton.SegmentMarksLength` | HandPose/handPoseImage.py:50-53 | Each segment gives exactly three drawing calls. |
| `Skeleton.SegmentMarksLayout` | HandPose/handPoseImage.py:50-53 | For segment `k`, calls `3k`, `3k+1` and `3k+2` are its line, a circle of radius 5 on its start, and a circle of radius 5 on its end. |
| `Skeleton.SkeletonMarksUseDetectedPoints` | HandPose/handPoseImage.py:49-53 | Every line drawn on the frame joins two present landmarks, and every circle (radius 5) sits on one. No drawing call uses an absent landmark. |
| `Skeleton.RunPairsMeetsSpec` | HandPose/handPoseImage.py:46-53 | The loop, read from the front pair by pair, ends with the outcome and draws the marks that the declarative description gives. |

## Left out

- `HandPose.forward` (lines 57-74): image and model loading, blob creation, the network's forward pass, window display, writing files, waiting for a key, and timing prints. These are I/O and calls into libraries that are not modelled.
- `HandPose.window_size` (lines 15-23): floating-point aspect-ratio arithmetic that only feeds `forward`.
- The resize of each map to the frame size (line 32): the maps are taken as already at frame resolution.
- The internals of `cv2.minMaxLoc`, including its tie-break: only its "reports a global maximum and its value" contract is kept, as the parameter `findMax`. Its minimum value and location are discarded by the code and are not modelled.
- Floating point: confidences and the threshold are exact reals, so single-precision rounding of the maps, and comparisons that depend on it, are not modelled.
- Pixel effects of the drawing calls: colours, thickness, fonts, line types and anti-aliasing. Only the kind of call, its points, the circle radii (6 and 5) and the landmark index that is written are kept. The label is the index, standing for its decimal text.
- `draw_skeleton` returns the two images it was given. They are the same objects the caller holds, so the model returns nothing for them. The keypoint list is local in the code; `DrawSkeleton` returns it as a ghost value so that its contract can describe it.
- HandPoseImage.HandPose.LocateKeypoints: requires at least `nPoints` confidence maps. With fewer, the numpy indexing raises `IndexError` part-way through the first loop, and that path is not modelled.
- HandPoseImage.HandPose.DrawSkeleton: requires the same, and also that the frame and its keypoint copy are different images (the caller makes the copy with `np.copy`).
- HandPoseImage.HandPose.constructor: `nPoints` is a natural number. A negative count, which `range` would treat as zero, is not modelled.
- The `NameError` raised at line 46 when the class is used without running the script as a program, so that the script-level `POSE_PAIRS` does not exist. The model always receives that table as the parameter `scriptPosePairs`, so this path is not modelled.
- A pair row with fewer than two entries raises `IndexError` at line 47 or 48. A non-integer entry, such as a float, raises `TypeError` at line 49. Neither path is modelled. A longer row is read through its first two entries, which is what `Pair` keeps.
