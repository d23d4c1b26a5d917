/** The closed-form expressions of the metric-based closest-point rule:
    the metric distance between a current point and a reference point, the
    projection parameter `landaMin` of a current point on a reference
    segment, and the point the segment rule picks from it. */
module Metric {
  import opened Types

  /** Lagrange's identity in the plane: cross product squared plus dot
      product squared is the product of the squared norms. */
  lemma CrossDot(dx: real, dy: real, qx: real, qy: real)
    ensures (dx * qy - dy * qx) * (dx * qy - dy * qx) + (dx * qx + dy * qy) * (dx * qx + dy * qy)
            == (dx * dx + dy * dy) * (qx * qx + qy * qy)
  {
  }

  lemma SquareNonNegative(x: real)
    ensures x * x >= 0.0
  {
    if x < 0.0 {
      assert x * x == (-x) * (-x);
    }
  }

  /** The squared cross product is bounded by the product of the squared norms. */
  lemma CrossBound(dx: real, dy: real, qx: real, qy: real)
    ensures 0.0 <= (dx * qy - dy * qx) * (dx * qy - dy * qx) <= (dx * dx + dy * dy) * (qx * qx + qy * qy)
  {
    CrossDot(dx, dy, qx, qy);
    SquareNonNegative(dx * qx + dy * qy);
    SquareNonNegative(dx * qy - dy * qx);
  }

  /** For e, n >= 0, lmet2 > 0 and 0 <= cr <= e * n, the quantity
      e - cr / (n + lmet2) lies in [0, e] and is zero exactly when e is. */
  lemma SubtractedShareBounds(e: real, n: real, cr: real, lmet2: real)
    requires 0.0 <= e && 0.0 <= n && lmet2 > 0.0
    requires 0.0 <= cr <= e * n
    ensures 0.0 <= e - cr / (n + lmet2) <= e
    ensures e - cr / (n + lmet2) == 0.0 <==> e == 0.0
  {
    var k := n + lmet2;
    var t := cr / k;
    assert t * k == cr;
    assert 0.0 <= t;
    assert (e - t) * k == e * n + e * lmet2 - cr;
    assert (e - t) * k >= e * lmet2;
    if e - t == 0.0 {
      assert e * lmet2 <= 0.0;
    }
  }

  /** The metric distance from current point (px, py) to reference point
      (qx, qy): the squared Euclidean distance minus the part of the error
      along the reference point's bearing, with `lmet2` = LMET * LMET. It
      never exceeds the squared Euclidean distance and is never negative;
      it is zero exactly when the squared Euclidean distance is, that is,
      when the two points coincide. */
  function MetricDist(px: real, py: real, qx: real, qy: real, lmet2: real): (r: real)
    requires lmet2 > 0.0
    ensures 0.0 <= r <= (px - qx) * (px - qx) + (py - qy) * (py - qy)
    ensures r == 0.0 <==> (px - qx) * (px - qx) + (py - qy) * (py - qy) == 0.0
  {
    var dx := px - qx;
    var dy := py - qy;
    SquareNonNegative(dx);
    SquareNonNegative(dy);
    SquareNonNegative(qx);
    SquareNonNegative(qy);
    CrossBound(dx, dy, qx, qy);
    SubtractedShareBounds(dx * dx + dy * dy, qx * qx + qy * qy, (dx * qy - dy * qx) * (dx * qy - dy * qx), lmet2);
    dx * dx + dy * dy - (dx * qy - dy * qx) * (dx * qy - dy * qx) / (qx * qx + qy * qy + lmet2)
  }

  /** The projection parameter of a current point on a reference segment,
      or NaN when the C# division is 0/0. */
  datatype Landa = Num(v: real) | NaN

  /** `landaMin` for current point (p2x, p2y) and the segment starting at
      (q1x, q1y) whose preprocessed deltas are dqx, dqy, dqx2, dqy2 and
      dqxdqy. A, B, C and D weight the deltas by the current point's own
      range. A zero denominator gives NaN here. IEEE arithmetic would give
      an infinity for a non-zero numerator, but when the deltas are the
      preprocessed ones the denominator is zero only for a zero-length
      segment, where the numerator is zero as well (see
      `LandaDenominatorZero`). */
  function LandaMin(p2x: real, p2y: real, q1x: real, q1y: real,
                    dqx: real, dqy: real, dqx2: real, dqy2: real, dqxdqy: real,
                    lmet2: real): Landa
    requires lmet2 > 0.0
  {
    var a := 1.0 / (p2x * p2x + p2y * p2y + lmet2);
    var b := 1.0 - a * p2y * p2y;
    var c := 1.0 - a * p2x * p2x;
    var d := a * p2x * p2y;
    var dqpx := q1x - p2x;
    var dqpy := q1y - p2y;
    var num := d * (dqx * dqpy + dqy * dqpx) + b * dqx * dqpx + c * dqy * dqpy;
    var den := b * dqx2 + c * dqy2 + 2.0 * d * dqxdqy;
    if den == 0.0 then NaN else Num(num / den)
  }

  /** The denominator of `landaMin` for preprocessed deltas (dqx2 = dqx^2,
      dqy2 = dqy^2, dqxdqy = dqx * dqy) is a positive definite form in
      (dqx, dqy): it is zero only for a segment of squared length zero. */
  lemma LandaDenominatorZero(p2x: real, p2y: real, dqx: real, dqy: real, lmet2: real)
    requires lmet2 > 0.0
    ensures
      var a := 1.0 / (p2x * p2x + p2y * p2y + lmet2);
      var b := 1.0 - a * p2y * p2y;
      var c := 1.0 - a * p2x * p2x;
      var d := a * p2x * p2y;
      b * (dqx * dqx) + c * (dqy * dqy) + 2.0 * d * (dqx * dqy) == 0.0 ==> dqx * dqx + dqy * dqy == 0.0
  {
    var n := p2x * p2x + p2y * p2y;
    var k := n + lmet2;
    var a := 1.0 / k;
    var b := 1.0 - a * p2y * p2y;
    var c := 1.0 - a * p2x * p2x;
    var d := a * p2x * p2y;
    var e := dqx * dqx + dqy * dqy;
    var cr := (dqx * p2y - dqy * p2x) * (dqx * p2y - dqy * p2x);
    var den := b * (dqx * dqx) + c * (dqy * dqy) + 2.0 * d * (dqx * dqy);
    assert den == e - a * cr;
    assert a * cr == cr / k;
    SquareNonNegative(dqx);
    SquareNonNegative(dqy);
    SquareNonNegative(p2x);
    SquareNonNegative(p2y);
    CrossBound(dqx, dqy, p2x, p2y);
    SubtractedShareBounds(e, n, cr, lmet2);
  }

  /** The point (1 - mu) * q1 + mu * q2 of the line through q1 and q2. */
  function Lerp(q1: Vector2, q2: Vector2, mu: real): Vector2 {
    Vector2((1.0 - mu) * q1.X + mu * q2.X, (1.0 - mu) * q1.Y + mu * q2.Y)
  }

  /** The point of segment [q1, q2] the rule keeps for projection parameter
      `landa`, or None when the interpolation yields NaN coordinates.
      `distref` is the segment's squared length. */
  function SegmentPoint(landa: Landa, q1: Vector2, q2: Vector2, distref: real, maxDistInter: real): Option<Vector2>
  {
    match landa
    case Num(v) =>
      if v < 0.0 then Some(q1)
      else if v > 1.0 then Some(q2)
      else if distref < maxDistInter then
        Some(Lerp(q1, q2, v))
      else if v < 0.5 then Some(q1)
      else Some(q2)
    case NaN =>
      // every comparison with NaN is false: interpolate (NaN) or take q2
      if distref < maxDistInter then None else Some(q2)
  }

  /** Whatever the rule keeps lies on the closed segment [q1, q2]; it is an
      interior point only when the segment's squared length `distref` is
      below `maxDistInter`, and it is an endpoint chosen by the side of
      `landa` otherwise. */
  lemma SegmentPointOnSegment(landa: Landa, q1: Vector2, q2: Vector2, distref: real, maxDistInter: real)
    ensures SegmentPoint(landa, q1, q2, distref, maxDistInter).Some? ==>
      exists mu :: 0.0 <= mu <= 1.0 && SegmentPoint(landa, q1, q2, distref, maxDistInter).value == Lerp(q1, q2, mu)
    ensures SegmentPoint(landa, q1, q2, distref, maxDistInter) !in {Some(q1), Some(q2), None} ==>
      landa.Num? && 0.0 <= landa.v <= 1.0 && distref < maxDistInter
    ensures landa.Num? && landa.v < 0.0 ==> SegmentPoint(landa, q1, q2, distref, maxDistInter) == Some(q1)
    ensures landa.Num? && landa.v > 1.0 ==> SegmentPoint(landa, q1, q2, distref, maxDistInter) == Some(q2)
    ensures maxDistInter <= distref && landa.Num? ==>
      SegmentPoint(landa, q1, q2, distref, maxDistInter) == if landa.v < 0.5 then Some(q1) else Some(q2)
    ensures landa.Num? && 0.0 <= landa.v <= 1.0 && distref < maxDistInter ==>
      SegmentPoint(landa, q1, q2, distref, maxDistInter) == Some(Lerp(q1, q2, landa.v))
    ensures landa.NaN? ==>
      SegmentPoint(landa, q1, q2, distref, maxDistInter) == if distref < maxDistInter then None else Some(q2)
  {
    var r := SegmentPoint(landa, q1, q2, distref, maxDistInter);
    if r == Some(q1) {
      assert Lerp(q1, q2, 0.0) == q1;
    } else if r == Some(q2) {
      assert Lerp(q1, q2, 1.0) == q2;
    }
  }

  /** A candidate closest point (x, y) and its metric distance d. */
  datatype Candidate = Candidate(x: real, y: real, d: real)
}
