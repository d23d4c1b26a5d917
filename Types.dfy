/** Values shared by the scan matcher: optional and failing results, the
    point and pose records, correlations, range scans and the opaque
    trigonometry the projection needs. */
module Types {

  datatype Option<T> = None | Some(value: T)

  /** The ways an iteration of the matcher fails: an array index out of
      range (an empty point cloud reaches `c[Io]` or `p[L]`; a trim fraction
      above one reaches `assoc[-1]`), and a singular normal-equation matrix
      in the least-squares step. */
  datatype Error = IndexOutOfRange | SingularSystem

  datatype Result<T> = Success(value: T) | Failure(error: Error)

  /** `double.MaxValue`, the start value of the best-candidate distance. */
  const DoubleMax: real := 1.7976931348623157e308

  datatype Vector2 = Vector2(X: real, Y: real)

  /** A projected scan point: Cartesian `X`, `Y`, the scaled range and the
      bearing `T` of the projected position. */
  datatype Vector4 = Vector4(X: real, Y: real, Range: real, T: real)

  function XY(v: Vector4): Vector2 {
    Vector2(v.X, v.Y)
  }

  datatype Pose2D = Pose2D(X: real, Y: real, Rotation: real)

  /** A matched pair: `point1` on the reference scan, `point2` on the current
      scan, and their metric distance. */
  datatype Correlation = Correlation(point1: Vector2, point2: Vector2, distance: real)

  /** One reading of the range scanner: range, bearing and the filter flag
      (`true` means the reading is invalid). */
  datatype Sample = Sample(range: real, theta: real, filtered: bool)

  datatype ScanObservation = ScanObservation(samples: seq<Sample>, factor: real)

  /** `Math.Cos`, `Math.Sin` and `Math.Atan2`, left uninterpreted. */
  datatype Trig = Trig(cos: real -> real, sin: real -> real, atan2: (real, real) -> real)

  /** What `Match` returns; the elapsed time is not modelled. */
  datatype MatchResult = MatchResult(initial: Pose2D, estimate: Pose2D, iterations: int, converged: bool)

  function Abs(x: real): real {
    if x < 0.0 then -x else x
  }
}
