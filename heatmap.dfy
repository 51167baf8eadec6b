/**
 * Confidence maps produced by the network, one per landmark, taken as already
 * resampled to the frame's resolution, and the contract of the max-finder
 * (`cv2.minMaxLoc`) that locates a map's global maximum.
 */
module Heatmap {
  import opened Drawing

  /** One landmark's confidence map, indexed `[row][column]`. */
  type ProbMap = seq<seq<real>>

  /** What the max-finder reports about a map: the largest value and one location holding it. */
  datatype Peak = Peak(value: real, loc: Point)

  /** `p` names a cell of `m`. */
  predicate InBounds(m: ProbMap, p: Point)
  {
    0 <= p.y < |m| && 0 <= p.x < |m[p.y]|
  }

  /** The confidence stored at a cell. */
  function At(m: ProbMap, p: Point): real
    requires InBounds(m, p)
  {
    m[p.y][p.x]
  }

  /** The cell at `p` holds a value at least as large as every cell of `m`. */
  predicate IsGlobalMax(m: ProbMap, p: Point)
  {
    InBounds(m, p) &&
    forall y, x :: 0 <= y < |m| && 0 <= x < |m[y]| ==> m[y][x] <= m[p.y][p.x]
  }

  /** Every cell of `m` is at most `t`. */
  predicate AllAtMost(m: ProbMap, t: real)
  {
    forall y, x :: 0 <= y < |m| && 0 <= x < |m[y]| ==> m[y][x] <= t
  }

  /**
   * The whole promise made by the max-finder: the reported location is a global
   * maximum and the reported value is the one stored there. Which maximum is
   * reported when several cells tie is deliberately left open.
   */
  predicate IsMaxPeak(m: ProbMap, pk: Peak)
  {
    IsGlobalMax(m, pk.loc) && pk.value == At(m, pk.loc)
  }

  /** Two answers of the max-finder on the same map agree on the value, whatever cells they name. */
  lemma MaxPeaksAgree(m: ProbMap, pk1: Peak, pk2: Peak)
    requires IsMaxPeak(m, pk1) && IsMaxPeak(m, pk2)
    ensures pk1.value == pk2.value
  {
  }

  /** A peak's value exceeds `t` exactly when some cell of the map does. */
  lemma PeakAboveIffSomeCellAbove(m: ProbMap, pk: Peak, t: real)
    requires IsMaxPeak(m, pk)
    ensures pk.value > t <==> !AllAtMost(m, t)
  {
  }
}
