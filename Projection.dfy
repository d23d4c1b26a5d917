/** How a range scan becomes a point cloud: each valid reading within the
    maximum range is turned into Cartesian coordinates, moved by a pose,
    and tagged with its range and the bearing of the moved point. */
module Projection {
  import opened Types

  /** A reading is projected when its scaled range is below the maximum
      range and the scanner did not flag it. */
  predicate Keep(s: Sample, factor: real, maxLaserRange: real) {
    s.range * factor < maxLaserRange && !s.filtered
  }

  /** The reading in the frame of pose q: polar to Cartesian, rotated by
      q.Rotation, translated by (q.X, q.Y); its bearing is atan2 of the
      moved point. */
  function ProjectSample(s: Sample, factor: real, q: Pose2D, trig: Trig): (v: Vector4)
    ensures v.Range == s.range * factor
    ensures v.T == trig.atan2(v.Y, v.X)
  {
    var dist := s.range * factor;
    var cx := trig.cos(s.theta) * dist;
    var cy := trig.sin(s.theta) * dist;
    var cw := trig.cos(q.Rotation);
    var sw := trig.sin(q.Rotation);
    var x := cw * cx - sw * cy + q.X;
    var y := sw * cx + cw * cy + q.Y;
    Vector4(x, y, dist, trig.atan2(y, x))
  }

  /** Rotation keeps the squared norm when cos^2 + sin^2 = 1. */
  lemma RotationKeepsNorm(cw: real, sw: real, a: real, b: real)
    requires cw * cw + sw * sw == 1.0
    ensures (cw * a - sw * b) * (cw * a - sw * b) + (sw * a + cw * b) * (sw * a + cw * b) == a * a + b * b
  {
    assert (cw * a - sw * b) * (cw * a - sw * b) + (sw * a + cw * b) * (sw * a + cw * b)
        == (cw * cw + sw * sw) * (a * a + b * b);
  }

  /** Polar to Cartesian keeps the distance when cos^2 + sin^2 = 1. */
  lemma PolarNorm(ct: real, st: real, d: real)
    requires ct * ct + st * st == 1.0
    ensures (ct * d) * (ct * d) + (st * d) * (st * d) == d * d
  {
    assert (ct * d) * (ct * d) + (st * d) * (st * d) == (ct * ct + st * st) * (d * d);
  }

  /** With the Pythagorean identity for the reading's bearing and for the
      pose's rotation, the projected point lies at the scaled range from
      the pose's position. */
  lemma ProjectSampleDistance(s: Sample, factor: real, q: Pose2D, trig: Trig)
    requires trig.cos(s.theta) * trig.cos(s.theta) + trig.sin(s.theta) * trig.sin(s.theta) == 1.0
    requires trig.cos(q.Rotation) * trig.cos(q.Rotation) + trig.sin(q.Rotation) * trig.sin(q.Rotation) == 1.0
    ensures var v := ProjectSample(s, factor, q, trig);
      (v.X - q.X) * (v.X - q.X) + (v.Y - q.Y) * (v.Y - q.Y) == v.Range * v.Range
  {
    var dist := s.range * factor;
    var cx := trig.cos(s.theta) * dist;
    var cy := trig.sin(s.theta) * dist;
    RotationKeepsNorm(trig.cos(q.Rotation), trig.sin(q.Rotation), cx, cy);
    PolarNorm(trig.cos(s.theta), trig.sin(s.theta), dist);
  }

  /** The projected cloud of `samples`, in scan order. */
  function Projected(samples: seq<Sample>, factor: real, q: Pose2D, trig: Trig, maxLaserRange: real): (r: seq<Vector4>)
    ensures |r| <= |samples|
    ensures forall a :: 0 <= a < |r| ==> r[a].Range < maxLaserRange
  {
    if samples == [] then []
    else
      var init := Projected(samples[..|samples| - 1], factor, q, trig, maxLaserRange);
      var s := samples[|samples| - 1];
      if Keep(s, factor, maxLaserRange) then init + [ProjectSample(s, factor, q, trig)] else init
  }

  /** The indices of the readings that are projected, in scan order. */
  function KeptIndices(samples: seq<Sample>, factor: real, maxLaserRange: real): (r: seq<nat>)
    ensures forall a :: 0 <= a < |r| ==> r[a] < |samples|
    ensures forall a, b :: 0 <= a < b < |r| ==> r[a] < r[b]
  {
    if samples == [] then []
    else
      var init := KeptIndices(samples[..|samples| - 1], factor, maxLaserRange);
      if Keep(samples[|samples| - 1], factor, maxLaserRange) then init + [|samples| - 1] else init
  }

  /** A reading is among the kept ones exactly when it passes the test. */
  lemma {:induction false} KeptIndicesExact(samples: seq<Sample>, factor: real, maxLaserRange: real)
    ensures forall i :: 0 <= i < |samples| ==>
      (i in KeptIndices(samples, factor, maxLaserRange) <==> Keep(samples[i], factor, maxLaserRange))
  {
    if samples != [] {
      var init := samples[..|samples| - 1];
      KeptIndicesExact(init, factor, maxLaserRange);
      forall i | 0 <= i < |samples|
        ensures i in KeptIndices(samples, factor, maxLaserRange) <==> Keep(samples[i], factor, maxLaserRange)
      {
        if i < |samples| - 1 {
          assert samples[i] == init[i];
        }
      }
    }
  }

  /** The projected cloud is the projection of the kept readings, one point
      per kept reading, in scan order. */
  lemma {:induction false} ProjectedIsKeptReadings(samples: seq<Sample>, factor: real, q: Pose2D, trig: Trig, maxLaserRange: real)
    ensures var r := Projected(samples, factor, q, trig, maxLaserRange);
      var k := KeptIndices(samples, factor, maxLaserRange);
      |r| == |k| &&
      forall a :: 0 <= a < |r| ==> r[a] == ProjectSample(samples[k[a]], factor, q, trig)
  {
    if samples != [] {
      var init := samples[..|samples| - 1];
      ProjectedIsKeptReadings(init, factor, q, trig, maxLaserRange);
      var k := KeptIndices(samples, factor, maxLaserRange);
      var ki := KeptIndices(init, factor, maxLaserRange);
      forall a | 0 <= a < |ki|
        ensures samples[ki[a]] == init[ki[a]]
      {
      }
    }
  }
}
