/** The nearest-target scan every version of the simulator uses to pick a
    predator to flee, a partner, a food item or a prey: a linear scan that
    keeps the first candidate strictly closer than the best distance so far,
    starting from the squared sense radius. The candidates' positions and
    eligibility are passed as snapshots, so one scan serves every caller. */
module Spatial {
  import opened Geometry
  import opened Options

  /** No eligible point lies strictly inside `bound` of `origin`, among the
      first `n` points. */
  ghost predicate NoneCloser(origin: Vec2, points: seq<Vec2>, eligible: seq<bool>, n: int, bound: real)
    requires |eligible| == |points|
  {
    forall i :: 0 <= i < n && i < |points| && eligible[i] ==> DistSq(origin, points[i]) >= bound
  }

  /** Scans the points in order and returns the index of the first eligible
      point at the least squared distance strictly below `radiusSq`, with that
      distance; when there is none, `None` with `radiusSq` itself. */
  method NearestIndex(origin: Vec2, points: seq<Vec2>, eligible: seq<bool>, radiusSq: real)
    returns (found: Option<nat>, distSq: real)
    requires |eligible| == |points|
    ensures found.None? ==> distSq == radiusSq && NoneCloser(origin, points, eligible, |points|, radiusSq)
    ensures found.Some? ==>
              found.value < |points| && eligible[found.value] &&
              distSq == DistSq(origin, points[found.value]) && distSq < radiusSq &&
              NoneCloser(origin, points, eligible, |points|, distSq)
    ensures found.Some? ==>
              forall i :: 0 <= i < found.value && eligible[i] ==> DistSq(origin, points[i]) > distSq
  {
    found := None;
    distSq := radiusSq;
    var i := 0;
    while i < |points|
      invariant 0 <= i <= |points|
      invariant found.None? ==> distSq == radiusSq
      invariant found.Some? ==>
                  found.value < i && eligible[found.value] &&
                  distSq == DistSq(origin, points[found.value]) && distSq < radiusSq
      invariant NoneCloser(origin, points, eligible, i, distSq)
      invariant found.Some? ==>
                  forall j :: 0 <= j < found.value && eligible[j] ==> DistSq(origin, points[j]) > distSq
      invariant found.None? ==>
                  forall j :: 0 <= j < i && eligible[j] ==> DistSq(origin, points[j]) >= radiusSq
    {
      if eligible[i] {
        var d := DistSq(origin, points[i]);
        if d < distSq {
          found := Some(i);
          distSq := d;
        }
      }
      i := i + 1;
    }
  }
}
