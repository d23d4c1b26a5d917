/** The error the matcher measures after each iteration and its exit test:
    the residual of the trimmed correspondences under the step just
    computed, the ratio against the previous residual, and the run of
    consecutive passing iterations that ends the loop. */
module Convergence {
  import opened Types
  import opened Metric

  /** The square `tmp *= tmp` takes. */
  function Sq(x: real): real {
    x * x
  }

  /** The offset, along x and along y, from reference point `point1` to
      current point `point2` moved by the step. */
  function OffsetX(c: Correlation, cosw: real, sinw: real, dtx: real): real {
    c.point2.X * cosw - c.point2.Y * sinw + dtx - c.point1.X
  }

  function OffsetY(c: Correlation, cosw: real, sinw: real, dty: real): real {
    c.point2.X * sinw + c.point2.Y * cosw + dty - c.point1.Y
  }

  /** The squared distance between reference point `point1` and current
      point `point2` moved by the step (rotation given by its cosine and
      sine, translation dtx, dty). */
  function Misfit(c: Correlation, cosw: real, sinw: real, dtx: real, dty: real): (r: real)
    ensures r >= 0.0
  {
    var ex := OffsetX(c, cosw, sinw, dtx);
    var ey := OffsetY(c, cosw, sinw, dty);
    SquareNonNegative(ex);
    SquareNonNegative(ey);
    Sq(ex) + Sq(ey)
  }

  /** The residual of correspondences `assoc` under the step, summed in
      list order. */
  function Residual(assoc: seq<Correlation>, cosw: real, sinw: real, dtx: real, dty: real): (r: real)
    ensures r >= 0.0
    ensures |assoc| > 0 ==> r >= Misfit(assoc[|assoc| - 1], cosw, sinw, dtx, dty)
  {
    if assoc == [] then 0.0
    else Residual(assoc[..|assoc| - 1], cosw, sinw, dtx, dty) + Misfit(assoc[|assoc| - 1], cosw, sinw, dtx, dty)
  }

  /** Every single correspondence's misfit is bounded by the residual, so a
      zero residual means every moved current point meets its reference
      point exactly. */
  lemma {:induction false} ResidualBoundsEachMisfit(assoc: seq<Correlation>, cosw: real, sinw: real, dtx: real, dty: real)
    ensures forall i :: 0 <= i < |assoc| ==>
      Misfit(assoc[i], cosw, sinw, dtx, dty) <= Residual(assoc, cosw, sinw, dtx, dty)
  {
    if assoc != [] {
      var init := assoc[..|assoc| - 1];
      ResidualBoundsEachMisfit(init, cosw, sinw, dtx, dty);
      forall i | 0 <= i < |assoc|
        ensures Misfit(assoc[i], cosw, sinw, dtx, dty) <= Residual(assoc, cosw, sinw, dtx, dty)
      {
        if i < |assoc| - 1 {
          assert assoc[i] == init[i];
        }
      }
    }
  }

  /** Extending the correspondences by one adds that one's misfit. */
  lemma ResidualStep(assoc: seq<Correlation>, i: nat, cosw: real, sinw: real, dtx: real, dty: real)
    requires i < |assoc|
    ensures Residual(assoc[..i + 1], cosw, sinw, dtx, dty)
         == Residual(assoc[..i], cosw, sinw, dtx, dty) + Misfit(assoc[i], cosw, sinw, dtx, dty)
  {
    assert assoc[..i + 1][..i] == assoc[..i];
  }

  /** The loop that sums the residual, one correspondence at a time. */
  method ResidualError(assoc: seq<Correlation>, cosw: real, sinw: real, dtx: real, dty: real) returns (error: real)
    ensures error == Residual(assoc, cosw, sinw, dtx, dty)
  {
    error := 0.0;
    for i := 0 to |assoc|
      invariant error == Residual(assoc[..i], cosw, sinw, dtx, dty)
    {
      var tmp1 := OffsetX(assoc[i], cosw, sinw, dtx);
      tmp1 := Sq(tmp1);
      var tmp2 := OffsetY(assoc[i], cosw, sinw, dty);
      tmp2 := Sq(tmp2);
      ResidualStep(assoc, i, cosw, sinw, dtx, dty);
      error := error + tmp1 + tmp2;
    }
    assert assoc[..|assoc|] == assoc;
  }

  /** The ratio test `|1 - error / errorK1| <= minError`. When the previous
      error is zero the IEEE quotient is NaN or infinite and the test fails. */
  function RatioTest(error: real, errorK1: real, minError: real): (r: bool)
    ensures errorK1 > 0.0 ==> (r <==> Abs(error - errorK1) <= minError * errorK1)
    ensures errorK1 == 0.0 ==> !r
  {
    if errorK1 == 0.0 then false
    else
      var ratio := error / errorK1;
      assert errorK1 > 0.0 ==> Abs(error - errorK1) == Abs(1.0 - ratio) * errorK1;
      Abs(1.0 - ratio) <= minError
  }

  /** Every component of the step is below minError in magnitude. */
  function SmallStep(qmin: Pose2D, minError: real): (r: bool)
    ensures r ==> minError > 0.0
    ensures minError > 0.0 && qmin == Pose2D(0.0, 0.0, 0.0) ==> r
  {
    Abs(qmin.X) < minError && Abs(qmin.Y) < minError && Abs(qmin.Rotation) < minError
  }

  /** Whether an iteration counts toward convergence. */
  function IterationPasses(error: real, errorK1: real, qmin: Pose2D, minError: real): bool {
    RatioTest(error, errorK1, minError) || SmallStep(qmin, minError)
  }

  /** An iteration whose error repeats the previous non-zero error, or that
      does not move at all, passes for any positive tolerance. */
  lemma PassesWhenStill(error: real, errorK1: real, qmin: Pose2D, minError: real)
    requires minError > 0.0
    requires (error == errorK1 && errorK1 > 0.0) || qmin == Pose2D(0.0, 0.0, 0.0)
    ensures IterationPasses(error, errorK1, qmin, minError)
  {
    if error == errorK1 && errorK1 > 0.0 {
      assert Abs(error - errorK1) == 0.0;
      assert minError * errorK1 > 0.0;
    }
  }

  /** The exit tests a run records: residual errors[k] and step steps[k]
      of iteration k, each test taken against the residual before it
      (initialError before the first). */
  predicate Recorded(passes: seq<bool>, errors: seq<real>, steps: seq<Pose2D>, initialError: real, minError: real) {
    && |passes| == |errors| == |steps|
    && forall k :: 0 <= k < |passes| ==>
         errors[k] >= 0.0 &&
         passes[k] == IterationPasses(errors[k], if k == 0 then initialError else errors[k - 1], steps[k], minError)
  }

  /** The length of the run of passing iterations at the end of `passes`:
      the value of `NumConverged` after those iterations. */
  function TrailingPasses(passes: seq<bool>): (r: nat)
    ensures r <= |passes|
  {
    if passes == [] || !passes[|passes| - 1] then 0
    else TrailingPasses(passes[..|passes| - 1]) + 1
  }

  /** One more iteration, tested against the last recorded residual,
      extends a consistent record. */
  lemma RecordedStep(passes: seq<bool>, errors: seq<real>, steps: seq<Pose2D>, initialError: real, minError: real,
                     pass: bool, error: real, step: Pose2D)
    requires Recorded(passes, errors, steps, initialError, minError)
    requires error >= 0.0
    requires pass == IterationPasses(error, if |errors| == 0 then initialError else errors[|errors| - 1], step, minError)
    ensures Recorded(passes + [pass], errors + [error], steps + [step], initialError, minError)
  {
    var ps, es, ss := passes + [pass], errors + [error], steps + [step];
    forall k | 0 <= k < |ps|
      ensures es[k] >= 0.0 &&
        ps[k] == IterationPasses(es[k], if k == 0 then initialError else es[k - 1], ss[k], minError)
    {
      if k < |passes| {
        assert ps[k] == passes[k] && es[k] == errors[k] && ss[k] == steps[k];
        assert k > 0 ==> es[k - 1] == errors[k - 1];
      } else {
        assert ps[k] == pass && es[k] == error && ss[k] == step;
        assert k > 0 ==> es[k - 1] == errors[k - 1];
      }
    }
    assert Recorded(ps, es, ss, initialError, minError);
  }

  /** The run after one more iteration: one longer when it passes, zero
      when it does not (`NumConverged++` or `NumConverged = 0`). */
  lemma TrailingPassesStep(passes: seq<bool>, pass: bool)
    ensures TrailingPasses(passes + [pass]) == if pass then TrailingPasses(passes) + 1 else 0
  {
    assert (passes + [pass])[..|passes|] == passes;
  }

  /** After no iteration of the run did the run of consecutive passes
      exceed `smooth`. */
  predicate RunsBelow(passes: seq<bool>, smooth: int) {
    forall k :: 1 <= k <= |passes| ==> TrailingPasses(passes[..k]) <= smooth
  }

  /** The run stays at most `smooth` after one more iteration. */
  lemma RunsBelowStep(passes: seq<bool>, pass: bool, smooth: int)
    requires RunsBelow(passes, smooth)
    requires TrailingPasses(passes + [pass]) <= smooth
    ensures RunsBelow(passes + [pass], smooth)
  {
    var ps := passes + [pass];
    forall k | 1 <= k <= |ps|
      ensures TrailingPasses(ps[..k]) <= smooth
    {
      if k <= |passes| {
        assert ps[..k] == passes[..k];
      } else {
        assert ps[..k] == ps;
      }
    }
  }

  /** Dropping the last iteration keeps the run below `smooth`. */
  lemma RunsBelowPrefix(passes: seq<bool>, smooth: int)
    requires |passes| > 0 && RunsBelow(passes, smooth)
    ensures RunsBelow(passes[..|passes| - 1], smooth)
  {
    var init := passes[..|passes| - 1];
    forall k | 1 <= k <= |init|
      ensures TrailingPasses(init[..k]) <= smooth
    {
      assert init[..k] == passes[..k];
    }
  }

  /** A trailing run of k means the last k iterations passed and, when the
      run is shorter than the whole history, the one before them failed. */
  lemma {:induction false} TrailingPassesMeaning(passes: seq<bool>)
    ensures forall i :: |passes| - TrailingPasses(passes) <= i < |passes| ==> passes[i]
    ensures TrailingPasses(passes) < |passes| ==> !passes[|passes| - 1 - TrailingPasses(passes)]
  {
    if passes != [] && passes[|passes| - 1] {
      var init := passes[..|passes| - 1];
      TrailingPassesMeaning(init);
      forall i | |passes| - TrailingPasses(passes) <= i < |passes|
        ensures passes[i]
      {
        if i < |passes| - 1 {
          assert passes[i] == init[i];
        }
      }
      if TrailingPasses(passes) < |passes| {
        assert passes[|passes| - 1 - TrailingPasses(passes)] == init[|init| - 1 - TrailingPasses(init)];
      }
    }
  }
}
