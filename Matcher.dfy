/** The metric-based ICP scan matcher as the object the C# code defines: its
    tunables and the per-reference-scan precomputations are fields, and its
    operations are methods whose loops are proved against the functions of
    `Correspondence`, `Trim`, `Convergence` and `Projection`. */
module Matcher {
  import opened Types
  import opened Metric
  import opened Correspondence
  import opened Trim
  import opened Convergence
  import opened Projection

  /** The current cloud the search runs on: the projection filter's output
      when the filter is on, the cloud itself otherwise. */
  function SearchedCloud(cs: seq<Vector4>, projectionFilter: bool): (r: seq<Vector4>)
    ensures |r| <= |cs| && (|cs| >= 1 ==> |r| >= 1)
    ensures |cs| >= 1 && projectionFilter ==> SortedByBearing(r)
  {
    if projectionFilter && |cs| >= 1 then
      CompactedSorted(cs);
      Compacted(cs)
    else cs
  }

  /** One step of the projection filter: point i is moved down to slot cnt
      when its bearing is at least that of the last point kept. */
  method FilterPoint(c: array<Vector4>, i: nat, cnt: nat, ghost s: seq<Vector4>, ghost k: seq<nat>)
    returns (next: nat, ghost k': seq<nat>)
    requires i < c.Length && Filtering(c[..], s, k, cnt, i)
    modifies c
    ensures Filtering(c[..], s, k', next, i + 1)
  {
    ghost var cs := c[..];
    if c[i].T >= c[cnt - 1].T {
      FilterKeep(cs, s, k, cnt, i);
      c[cnt] := c[i];
      assert c[..] == cs[cnt := cs[i]];
      next, k' := cnt + 1, k + [i];
    } else {
      FilterSkip(cs, s, k, cnt, i);
      next, k' := cnt, k;
    }
  }

  /** The projection filter in place: every point whose bearing is at least
      that of the last point kept is moved down to the next free slot. */
  method FilterByBearing(c: array<Vector4>) returns (cnt: nat)
    requires c.Length >= 1
    modifies c
    ensures cnt == |Compacted(old(c[..]))|
    ensures c[..cnt] == Compacted(old(c[..]))
    ensures c[cnt..] == old(c[..])[cnt..]
  {
    ghost var s := c[..];
    ghost var k: seq<nat> := [0];
    cnt := 1;
    FilterStart(s);
    for i := 1 to c.Length
      invariant Filtering(c[..], s, k, cnt, i)
    {
      cnt, k := FilterPoint(c, i, cnt, s, k);
    }
    FilterDone(c[..], s, k, cnt);
  }

  /** Moves the left edge of the window for bearing t. */
  method AdvanceLeft(p: array<Vector4>, t: real, bw: real, L0: nat) returns (L: nat)
    requires L0 < p.Length
    ensures L == AdvanceL(p[..], t, bw, L0)
  {
    L := L0;
    while L < p.Length - 1 && t - bw > p[L].T
      invariant L0 <= L < p.Length
      invariant AdvanceL(p[..], t, bw, L) == AdvanceL(p[..], t, bw, L0)
      decreases p.Length - L
    {
      L := L + 1;
    }
  }

  /** Moves the right edge of the window for bearing t. */
  method AdvanceRight(p: array<Vector4>, t: real, bw: real, R0: nat) returns (R: nat)
    requires R0 < p.Length
    ensures R == AdvanceR(p[..], t, bw, R0)
  {
    R := R0;
    while R < p.Length - 1 && t + bw > p[R + 1].T
      invariant R0 <= R < p.Length
      invariant AdvanceR(p[..], t, bw, R) == AdvanceR(p[..], t, bw, R0)
      decreases p.Length - R
    {
      R := R + 1;
    }
  }

  /** The window for the first current point: skip current points lying
      more than bw before the reference scan, or move the edges. */
  method StartWindow(p: array<Vector4>, c: array<Vector4>, l2: nat, bw: real) returns (io: nat, L: nat, R: nat)
    requires p.Length >= 1 && 1 <= l2 <= c.Length
    ensures Window(io, L, R) == InitialWindow(p[..], c[..l2], bw)
  {
    L, R, io := 0, 0, 0;
    if c[io].T < p[L].T {
      if c[io].T + bw < p[L].T {
        while io < l2 - 1 && c[io].T + bw < p[L].T
          invariant 0 <= io < l2
          invariant SkipIo(c[..l2], p[0].T, bw, io) == SkipIo(c[..l2], p[0].T, bw, 0)
          decreases l2 - io
        {
          io := io + 1;
        }
      } else {
        R := AdvanceRight(p, c[io].T, bw, R);
      }
    } else {
      L := AdvanceLeft(p, c[io].T, bw, L);
      R := AdvanceRight(p, c[io].T, bw, L);
    }
  }

  /** What one iteration yields: the step, the pose with the step
      composed in, and the residual under the step. */
  datatype Step = Step(qMin: Pose2D, q: Pose2D, error: real)

  /** The correspondences `getFilteredCorrespondances` keeps: the last
      `KeptCount` of them, latest first; a count above their number
      reaches index -1. */
  function Trimmed(assoc: seq<Correlation>, f: real): Result<seq<Correlation>> {
    var n := KeptCount(|assoc|, f);
    if n > |assoc| then Failure(IndexOutOfRange)
    else
      var m := if n < 0 then 0 else n;
      Success(seq(m, k requires 0 <= k < m => assoc[|assoc| - 1 - k]))
  }

  /** For a fraction F in [0, 1] the trim succeeds and keeps exactly the
      latest floor(n * F) correspondences: every one of them, and nothing
      else. */
  lemma TrimmedKeepsLatest(assoc: seq<Correlation>, f: real)
    requires 0.0 <= f <= 1.0
    ensures Trimmed(assoc, f).Success?
    ensures var t := Trimmed(assoc, f).value;
      && |t| == (|assoc| as real * f).Floor
      && (forall c :: c in t ==> c in assoc[|assoc| - |t|..])
      && (forall k :: |assoc| - |t| <= k < |assoc| ==> assoc[k] in t)
  {
    KeptCountBounds(|assoc|, f);
    KeptCountIsFloor(|assoc|, f);
    var t := Trimmed(assoc, f).value;
    forall c | c in t
      ensures c in assoc[|assoc| - |t|..]
    {
      var k :| 0 <= k < |t| && t[k] == c;
      assert assoc[|assoc| - |t|..][|t| - 1 - k] == c;
    }
    forall k | |assoc| - |t| <= k < |assoc|
      ensures assoc[k] in t
    {
      assert t[|assoc| - 1 - k] == assoc[k];
    }
  }

  /** What one iteration of the matching loop works on: the reference cloud
      and its precomputed segments, the search tunables, the trim fraction
      F, the range limit, the current scan, and the trigonometry, the step
      solver `getQmin` and the pose composition. */
  datatype Problem = Problem(reference: seq<Vector4>, segs: Segments, prm: SearchParams, f: real,
                             maxLaserRange: real, scan2: ScanObservation, trig: Trig,
                             getQmin: seq<Correlation> -> Result<Pose2D>, compound: (Pose2D, Pose2D) -> Pose2D)
  {
    predicate Valid() {
      segs.Fits(|reference|) && prm.lmet2 > 0.0
    }
  }

  /** The correspondences found from pose q: the current scan projected at
      q and searched against the reference cloud; an empty cloud fails. */
  function Found(pb: Problem, q: Pose2D): Result<seq<Correlation>>
    requires pb.Valid()
  {
    var cs := Projected(pb.scan2.samples, pb.scan2.factor, q, pb.trig, pb.maxLaserRange);
    if |pb.reference| == 0 || |cs| == 0 then Failure(IndexOutOfRange)
    else Success(Search(pb.reference, pb.segs, pb.prm, SearchedCloud(cs, pb.prm.projectionFilter)))
  }

  /** The correspondences one iteration from pose q solves for: those
      found from q, trimmed. */
  function Kept(pb: Problem, q: Pose2D): Result<seq<Correlation>>
    requires pb.Valid()
  {
    match Found(pb, q)
    case Failure(e) => Failure(e)
    case Success(assoc) => Trimmed(assoc, pb.f)
  }

  /** Whether the least-squares step from pose q, if it is reached, has a
      solution: `getQmin` does not meet a singular system. */
  predicate Solvable(pb: Problem, q: Pose2D)
    requires pb.Valid()
  {
    Kept(pb, q).Success? ==> pb.getQmin(Kept(pb, q).value).Success?
  }

  /** The trim keeps none of fewer correspondences than one over F. */
  lemma TrimmedSparse(assoc: seq<Correlation>, f: real)
    requires 0.0 <= f <= 1.0 && (|assoc| as real) * f < 1.0
    ensures Trimmed(assoc, f) == Success([])
  {
    TrimmedKeepsLatest(assoc, f);
    MulNonNegative(|assoc| as real, f);
  }

  /** One iteration from pose q: `getQmin` computes the step for the kept
      correspondences, the step is composed into q, and the residual of the
      kept correspondences under the step is measured. */
  function StepAt(pb: Problem, q: Pose2D): Result<Step>
    requires pb.Valid()
  {
    match Kept(pb, q)
    case Failure(e) => Failure(e)
    case Success(t) =>
      match pb.getQmin(t)
      case Failure(e) => Failure(e)
      case Success(qMin) =>
        Success(Step(qMin, pb.compound(qMin, q),
                     Residual(t, pb.trig.cos(qMin.Rotation), pb.trig.sin(qMin.Rotation), qMin.X, qMin.Y)))
  }

  /** An iteration fails on an empty reference cloud. On non-empty clouds
      with F in [0, 1] the search and the trim succeed, keeping
      floor(n * F) of the n correspondences, and the iteration succeeds
      exactly when the least-squares step is solvable. Every residual it
      measures is non-negative. */
  lemma StepAtOutcome(pb: Problem, q: Pose2D)
    requires pb.Valid()
    ensures |pb.reference| == 0 ==> StepAt(pb, q).Failure?
    ensures |pb.reference| > 0 && 0.0 <= pb.f <= 1.0 &&
            |Projected(pb.scan2.samples, pb.scan2.factor, q, pb.trig, pb.maxLaserRange)| > 0 ==>
      && Found(pb, q).Success? && Kept(pb, q).Success?
      && (StepAt(pb, q).Success? <==> pb.getQmin(Kept(pb, q).value).Success?)
    ensures StepAt(pb, q).Failure? ==>
      || |pb.reference| == 0
      || |Projected(pb.scan2.samples, pb.scan2.factor, q, pb.trig, pb.maxLaserRange)| == 0
      || !(0.0 <= pb.f <= 1.0)
      || !Solvable(pb, q)
    ensures StepAt(pb, q).Success? ==> StepAt(pb, q).value.error >= 0.0
  {
    if Found(pb, q).Success? && 0.0 <= pb.f <= 1.0 {
      TrimmedKeepsLatest(Found(pb, q).value, pb.f);
    }
  }

  /** When fewer correspondences are found than one over F (at the default
      F = 0.95, none or one), the trim keeps none of them and the step is
      solved for an empty system; a solver that rejects the empty system,
      whose normal-equation matrix is zero, makes the iteration fail. */
  lemma StepAtFailsOnSparseSearch(pb: Problem, q: Pose2D, assoc: seq<Correlation>)
    requires pb.Valid() && 0.0 <= pb.f <= 1.0
    requires Found(pb, q) == Success(assoc) && (|assoc| as real) * pb.f < 1.0
    ensures Kept(pb, q) == Success([])
    ensures pb.getQmin([]).Failure? ==> StepAt(pb, q).Failure?
  {
    TrimmedSparse(assoc, pb.f);
  }

  /** The iterations of a problem as a function of the pose they start from. */
  function Iteration(pb: Problem): (it: Pose2D -> Result<Step>)
    requires pb.Valid()
    ensures forall q :: it(q) == StepAt(pb, q)
  {
    q => StepAt(pb, q)
  }

  /** Which poses of a problem the least-squares step is solvable from. */
  function Solvability(pb: Problem): (solvable: Pose2D -> bool)
    requires pb.Valid()
    ensures forall q :: solvable(q) == Solvable(pb, q)
  {
    q => Solvable(pb, q)
  }

  /** A run of the matching loop from pose initQ, iteration by iteration
      as `it` yields them: poses[k] is the pose iteration k starts from, and
      its step, the composed pose poses[k + 1] and its residual are what
      `it` yields there. */
  ghost predicate Trace(it: Pose2D -> Result<Step>, initQ: Pose2D, poses: seq<Pose2D>, errors: seq<real>,
                        steps: seq<Pose2D>)
  {
    && |poses| == |steps| + 1 && |errors| == |steps| && poses[0] == initQ
    && forall k :: 0 <= k < |steps| ==> it(poses[k]) == Success(Step(steps[k], poses[k + 1], errors[k]))
  }

  /** In a run of a problem's iterations every pose after the first is the
      previous pose composed with the step taken from it, and every
      residual is non-negative. */
  lemma TraceComposes(pb: Problem, initQ: Pose2D, poses: seq<Pose2D>, errors: seq<real>, steps: seq<Pose2D>)
    requires pb.Valid() && Trace(Iteration(pb), initQ, poses, errors, steps)
    ensures forall k :: 0 <= k < |steps| ==> poses[k + 1] == pb.compound(steps[k], poses[k]) && errors[k] >= 0.0
  {
    forall k | 0 <= k < |steps|
      ensures poses[k + 1] == pb.compound(steps[k], poses[k]) && errors[k] >= 0.0
    {
      assert StepAt(pb, poses[k]) == Success(Step(steps[k], poses[k + 1], errors[k]));
      StepAtOutcome(pb, poses[k]);
    }
  }

  /** One more successful iteration from the last pose extends a run. */
  lemma TraceStep(it: Pose2D -> Result<Step>, initQ: Pose2D, poses: seq<Pose2D>, errors: seq<real>,
                  steps: seq<Pose2D>, s: Step)
    requires Trace(it, initQ, poses, errors, steps)
    requires it(poses[|poses| - 1]) == Success(s)
    ensures Trace(it, initQ, poses + [s.q], errors + [s.error], steps + [s.qMin])
  {
    var ps, es, ss := poses + [s.q], errors + [s.error], steps + [s.qMin];
    forall k | 0 <= k < |ss|
      ensures it(ps[k]) == Success(Step(ss[k], ps[k + 1], es[k]))
    {
      assert ps[k] == poses[k];
      if k < |steps| {
        assert ss[k] == steps[k] && es[k] == errors[k] && ps[k + 1] == poses[k + 1];
      }
    }
  }

  // Sequence identities the search loop uses without unfolding the search.
  lemma AppendNothing(s: seq<Correlation>)
    ensures [] + s == s && s + [] == s
  {
  }

  lemma Regroup(a: seq<Correlation>, b: seq<Correlation>, c: seq<Correlation>)
    ensures a + (b + c) == (a + b) + c
  {
  }

  /** The loop of `preProcessOnRef`: the differences between consecutive
      points of p, their squares, the squared segment lengths and the cross
      products, in fresh zero-initialised arrays. */
  method Precompute(p: array<Vector4>)
    returns (dqx: array<real>, dqx2: array<real>, dqy: array<real>, dqy2: array<real>, dr: array<real>, dxy: array<real>)
    ensures fresh(dqx) && fresh(dqx2) && fresh(dqy) && fresh(dqy2) && fresh(dr) && fresh(dxy)
    ensures Segments(dqx[..], dqx2[..], dqy[..], dqy2[..], dr[..], dxy[..]).Describes(p[..])
  {
    var l1 := p.Length;
    dqx := new real[l1](_ => 0.0);
    dqx2 := new real[l1](_ => 0.0);
    dqy := new real[l1](_ => 0.0);
    dqy2 := new real[l1](_ => 0.0);
    dr := new real[l1](_ => 0.0);
    dxy := new real[l1](_ => 0.0);
    ghost var ps := p[..];
    var i := 0;
    while i < l1 - 1
      modifies dqx, dqx2, dqy, dqy2, dr, dxy
      invariant i <= if l1 == 0 then 0 else l1 - 1
      invariant forall k :: 0 <= k < i ==> Entry(ps, k, dqx[k], dqx2[k], dqy[k], dqy2[k], dr[k], dxy[k])
      invariant l1 > 0 ==> Entry(ps, l1 - 1, dqx[l1 - 1], dqx2[l1 - 1], dqy[l1 - 1], dqy2[l1 - 1], dr[l1 - 1], dxy[l1 - 1])
      decreases l1 - i
    {
      var ex := p[i].X - p[i + 1].X;
      var ey := p[i].Y - p[i + 1].Y;
      var ex2 := ex * ex;
      var ey2 := ey * ey;
      var exy := ex * ey;
      assert Entry(ps, i, ex, ex2, ey, ey2, ex2 + ey2, exy);
      dqx[i] := ex;
      dqy[i] := ey;
      dqx2[i] := ex2;
      dqy2[i] := ey2;
      dr[i] := ex2 + ey2;
      dxy[i] := exy;
      i := i + 1;
    }
    assert i == l1 - 1 || l1 == 0;
  }

  class MbIcpScanMatcher {
    const BigInitialError: real := 1000000.0
    const MaxIterations: nat := 200

    var projectionFilter: bool
    var maxLaserRange: real
    var f: real
    var lmet: real
    /** The radial window. */
    var br: real
    /** The angular window. */
    var bw: real
    var maxDistInter: real
    /** Declared but read nowhere: the association-count check that would
        use it is disabled. */
    var asocError: real
    var minError: real
    var iterSmoothConv: int

    // Precomputations for the reference scan, one entry per point.
    var refdqx: array<real>
    var refdqx2: array<real>
    var refdqy: array<real>
    var refdqy2: array<real>
    var distref: array<real>
    var refdqxdqy: array<real>
    /** The error of the previous iteration. */
    var errorK1: real

    /** The initial values of the tunables; the precomputation arrays start
        empty and the previous error at zero. */
    constructor ()
      ensures projectionFilter && maxLaserRange == 7.9 && f == 0.95 && lmet == 3.0
      ensures br == 0.3 && bw == 0.523333333 && maxDistInter == 0.5 && asocError == 0.1
      ensures minError == 0.0001 && iterSmoothConv == 2 && errorK1 == 0.0
      ensures SegmentsFit(0)
    {
      projectionFilter := true;
      maxLaserRange := 7.9;
      f := 0.95;
      lmet := 3.0;
      br := 0.3;
      bw := 0.523333333;
      maxDistInter := 0.5;
      asocError := 0.1;
      minError := 0.0001;
      iterSmoothConv := 2;
      refdqx := new real[0];
      refdqx2 := new real[0];
      refdqy := new real[0];
      refdqy2 := new real[0];
      distref := new real[0];
      refdqxdqy := new real[0];
      errorK1 := 0.0;
    }

    /** Every precomputation array has length n. */
    predicate SegmentsFit(n: nat)
      reads this`refdqx, this`refdqx2, this`refdqy, this`refdqy2, this`distref, this`refdqxdqy
    {
      refdqx.Length == n && refdqx2.Length == n && refdqy.Length == n &&
      refdqy2.Length == n && distref.Length == n && refdqxdqy.Length == n
    }

    /** The precomputation arrays as values. */
    function Segs(): (segs: Segments)
      reads this`refdqx, this`refdqx2, this`refdqy, this`refdqy2, this`distref, this`refdqxdqy
      reads refdqx, refdqx2, refdqy, refdqy2, distref, refdqxdqy
      ensures segs.Fits(refdqx.Length) <==> SegmentsFit(refdqx.Length)
    {
      Segments(refdqx[..], refdqx2[..], refdqy[..], refdqy2[..], distref[..], refdqxdqy[..])
    }

    /** The tunables the search reads, with LMET2 = LMET * LMET. */
    function Params(): (prm: SearchParams)
      reads this`projectionFilter, this`lmet, this`br, this`bw, this`maxDistInter
      ensures prm.lmet2 == lmet * lmet
      ensures lmet != 0.0 ==> prm.lmet2 > 0.0
      ensures prm.br == br && prm.bw == bw && prm.maxDistInter == maxDistInter
      ensures prm.projectionFilter == projectionFilter
    {
      var lmet2 := lmet * lmet;
      assert lmet != 0.0 ==> lmet2 / lmet == lmet;
      SearchParams(projectionFilter, lmet2, br, bw, maxDistInter)
    }

    /** What the matching loop works on for reference cloud `reference`
        and current scan scan2, read from the tunables and the
        precomputation arrays. */
    function Setting(reference: seq<Vector4>, scan2: ScanObservation, trig: Trig,
                     getQmin: seq<Correlation> -> Result<Pose2D>, compound: (Pose2D, Pose2D) -> Pose2D): (pb: Problem)
      reads this`projectionFilter, this`lmet, this`br, this`bw, this`maxDistInter, this`f, this`maxLaserRange
      reads this`refdqx, this`refdqx2, this`refdqy, this`refdqy2, this`distref, this`refdqxdqy
      reads refdqx, refdqx2, refdqy, refdqy2, distref, refdqxdqy
      ensures SegmentsFit(|reference|) && lmet != 0.0 ==> pb.Valid()
      ensures pb.reference == reference && pb.scan2 == scan2 && pb.f == f && pb.maxLaserRange == maxLaserRange
    {
      Problem(reference, Segs(), Params(), f, maxLaserRange, scan2, trig, getQmin, compound)
    }

    /** Rescales the length tunables to the scan's unit. The tunables are
        shared state, so the rescaling compounds over calls. */
    method ChangeMBParameterToUnitFactor(unitFactor: real)
      modifies this`maxLaserRange, this`lmet, this`br, this`maxDistInter
      ensures maxLaserRange == old(maxLaserRange) * unitFactor
      ensures lmet == old(lmet) * unitFactor
      ensures br == old(br) * unitFactor
      ensures maxDistInter == old(maxDistInter) * unitFactor
    {
      maxLaserRange := maxLaserRange * unitFactor;
      lmet := lmet * unitFactor;
      br := br * unitFactor;
      maxDistInter := maxDistInter * unitFactor;
    }

    /** The points of a scan seen from pose q. */
    method ToPoints(scan: ScanObservation, q: Pose2D, trig: Trig) returns (pts: array<Vector4>)
      ensures fresh(pts)
      ensures pts[..] == Projected(scan.samples, scan.factor, q, trig, maxLaserRange)
    {
      var points: seq<Vector4> := [];
      for i := 0 to |scan.samples|
        invariant points == Projected(scan.samples[..i], scan.factor, q, trig, maxLaserRange)
      {
        assert scan.samples[..i + 1][..i] == scan.samples[..i];
        var dist := scan.samples[i].range * scan.factor;
        if dist < maxLaserRange && !scan.samples[i].filtered {
          points := points + [ProjectSample(scan.samples[i], scan.factor, q, trig)];
        }
      }
      assert scan.samples[..|scan.samples|] == scan.samples;
      pts := new Vector4[|points|](k requires 0 <= k < |points| => points[k]);
    }

    /** Precomputes the segment values of reference cloud p and resets the
        previous error. */
    method PreProcessOnRef(p: array<Vector4>)
      modifies this`refdqx, this`refdqx2, this`refdqy, this`refdqy2, this`distref, this`refdqxdqy, this`errorK1
      ensures fresh(refdqx) && fresh(refdqx2) && fresh(refdqy) && fresh(refdqy2) && fresh(distref) && fresh(refdqxdqy)
      ensures SegmentsFit(p.Length) && Segs().Describes(p[..])
      ensures errorK1 == BigInitialError
    {
      var dqx, dqx2, dqy, dqy2, dr, dxy := Precompute(p);
      refdqx, refdqx2, refdqy, refdqy2, distref, refdqxdqy := dqx, dqx2, dqy, dqy2, dr, dxy;
      errorK1 := BigInitialError;
      ghost var segs := Segments(dqx[..], dqx2[..], dqy[..], dqy2[..], dr[..], dxy[..]);
      assert Segs() == segs;
      assert segs.Describes(p[..]);
    }

    /** The metric-based closest point of current point pt on the segments
        of window [L, R]: the first candidate of least metric distance. */
    method BestOnSegments(p: array<Vector4>, pt: Vector4, L: nat, R: nat, lmet2: real) returns (best: Candidate)
      requires L < R < p.Length && SegmentsFit(p.Length) && lmet2 > 0.0
      ensures best == BestFrom(p[..], Segs(), pt, lmet2, maxDistInter, L + 1, R, NoCandidate)
    {
      ghost var segs := Segs();
      best := NoCandidate;
      for j := L + 1 to R + 1
        invariant BestFrom(p[..], segs, pt, lmet2, maxDistInter, j, R, best)
               == BestFrom(p[..], segs, pt, lmet2, maxDistInter, L + 1, R, NoCandidate)
      {
        var q1 := XY(p[j - 1]);
        var q2 := XY(p[j]);
        var landa := LandaMin(pt.X, pt.Y, q1.X, q1.Y, refdqx[j - 1], refdqy[j - 1],
                              refdqx2[j - 1], refdqy2[j - 1], refdqxdqy[j - 1], lmet2);
        var q := SegmentPoint(landa, q1, q2, distref[j - 1], maxDistInter);
        // a NaN point has a NaN distance, which never compares below the best
        if q.Some? {
          var d := MetricDist(pt.X, pt.Y, q.value.X, q.value.Y, lmet2);
          if d < best.d {
            best := Candidate(q.value.X, q.value.Y, d);
          }
        }
        assert Closer(SegmentCandidate(p[..], segs, pt, lmet2, maxDistInter, j), best) == best;
      }
    }

    /** What current point pt contributes with the window at [L, R]: the
        single reference point when L == R, the best segment point when
        L < R, each kept only below Br, and the fallback when L > R. */
    method AssociatePoint(p: array<Vector4>, pt: Vector4, L: nat, R: nat, lmet2: real) returns (found: Option<Correlation>)
      requires L < p.Length && R < p.Length && SegmentsFit(p.Length) && lmet2 > 0.0 && lmet2 == Params().lmet2
      ensures found == Associate(p[..], Segs(), Params(), pt, L, R)
    {
      if L == R {
        var dist := MetricDist(pt.X, pt.Y, p[R].X, p[R].Y, lmet2);
        if dist < br {
          return Some(Correlation(XY(p[R]), XY(pt), dist));
        }
        return None;
      } else if L < R {
        var best := BestOnSegments(p, pt, L, R, lmet2);
        if best.d < br {
          return Some(Correlation(Vector2(best.x, best.y), XY(pt), best.d));
        }
        return None;
      } else {
        // the branch the C# comment calls impossible
        return Some(Correlation(Vector2(0.0, 0.0), XY(pt), br));
      }
    }

    /** One round of the main loop of `CorrelatePointsMB` for current point
        c[i]: the window [L, R] moves to the point's bearing and the point
        is associated within it, so that the search from point i is this
        round's correlation, if any, followed by the search from point
        i + 1 with the moved window. Ghost `from` is `SearchFrom` over the
        prepared clouds, held abstract so that the loop calling this does
        not unfold the search. */
    method AssociateNext(p: array<Vector4>, c: array<Vector4>, l2: nat, i: nat, L: nat, R: nat, lmet2: real,
                         ghost ps: seq<Vector4>, ghost cs: seq<Vector4>, ghost segs: Segments, ghost prm: SearchParams,
                         ghost from: (nat, nat, nat) -> seq<Correlation>)
      returns (found: Option<Correlation>, L': nat, R': nat)
      requires i < l2 <= c.Length && L < p.Length && R < p.Length && SegmentsFit(p.Length)
      requires lmet2 > 0.0 && lmet2 == Params().lmet2
      requires ps == p[..] && cs == c[..l2] && segs == Segs() && prm == Params()
      requires forall j: nat, l: nat, r: nat {:trigger SearchFrom(ps, segs, prm, cs, j, l, r)} ::
        j <= |cs| && l < |ps| && r < |ps| ==> from(j, l, r) == SearchFrom(ps, segs, prm, cs, j, l, r)
      ensures L' < |ps| && R' < |ps|
      ensures from(i, L, R) == (if found.Some? then [found.value] else []) + from(i + 1, L', R')
    {
      assert c[i] == cs[i];
      L' := AdvanceLeft(p, c[i].T, bw, L);
      R' := AdvanceRight(p, c[i].T, bw, R);
      found := AssociatePoint(p, c[i], L', R', lmet2);
      assert SearchFrom(ps, segs, prm, cs, i, L, R)
          == (if found.Some? then [found.value] else []) + SearchFrom(ps, segs, prm, cs, i + 1, L', R');
    }

    /** The main loop of `CorrelatePointsMB` over current points c[io..l2],
        with the window at [L0, R0] before point io moves it: each point's
        correlation, if any, is appended. */
    method SearchLoop(p: array<Vector4>, c: array<Vector4>, l2: nat, io: nat, L0: nat, R0: nat, lmet2: real,
                      ghost ps: seq<Vector4>, ghost cs: seq<Vector4>, ghost segs: Segments, ghost prm: SearchParams,
                      ghost from: (nat, nat, nat) -> seq<Correlation>)
      returns (correlations: seq<Correlation>)
      requires io <= l2 <= c.Length && L0 < p.Length && R0 < p.Length && SegmentsFit(p.Length)
      requires lmet2 > 0.0 && lmet2 == Params().lmet2
      requires ps == p[..] && cs == c[..l2] && segs == Segs() && prm == Params()
      requires forall j: nat, l: nat, r: nat {:trigger SearchFrom(ps, segs, prm, cs, j, l, r)} ::
        j <= |cs| && l < |ps| && r < |ps| ==> from(j, l, r) == SearchFrom(ps, segs, prm, cs, j, l, r)
      ensures correlations == SearchFrom(ps, segs, prm, cs, io, L0, R0)
    {
      var L: nat, R: nat := L0, R0;
      correlations := [];
      AppendNothing(from(io, L0, R0));
      for i := io to l2
        invariant L < |ps| && R < |ps|
        invariant correlations + from(i, L, R) == from(io, L0, R0)
      {
        var found;
        found, L, R := AssociateNext(p, c, l2, i, L, R, lmet2, ps, cs, segs, prm, from);
        var piece := if found.Some? then [found.value] else [];
        Regroup(correlations, piece, from(i + 1, L, R));
        correlations := correlations + piece;
      }
      assert from(l2, L, R) == SearchFrom(ps, segs, prm, cs, l2, L, R) == [];
      AppendNothing(correlations);
    }

    /** The search of `CorrelatePointsMB` over current points c[..l2]: the
        window is set up for the first point, then the main loop runs. */
    method SearchAll(p: array<Vector4>, c: array<Vector4>, l2: nat, lmet2: real) returns (correlations: seq<Correlation>)
      requires 1 <= p.Length && 1 <= l2 <= c.Length && SegmentsFit(p.Length)
      requires lmet2 > 0.0 && lmet2 == Params().lmet2
      ensures correlations == Search(p[..], Segs(), Params(), c[..l2])
    {
      var io, L, R := StartWindow(p, c, l2, bw);
      ghost var ps, cs, segs, prm := p[..], c[..l2], Segs(), Params();
      correlations := SearchLoop(p, c, l2, io, L, R, lmet2, ps, cs, segs, prm,
                                 (j: nat, l: nat, r: nat) => if j <= |cs| && l < |ps| && r < |ps| then SearchFrom(ps, segs, prm, cs, j, l, r) else []);
    }

    /** The correspondence search between reference cloud p and current
        cloud c, after the projection filter has compacted c in place. An
        empty cloud makes the C# code index out of range. */
    method CorrelatePointsMB(p: array<Vector4>, c: array<Vector4>) returns (r: Result<seq<Correlation>>)
      requires SegmentsFit(p.Length) && lmet != 0.0
      modifies c
      ensures r.Failure? <==> p.Length == 0 || c.Length == 0
      ensures r.Failure? ==> r.error == IndexOutOfRange
      ensures projectionFilter && c.Length >= 1 ==>
        var kept := Compacted(old(c[..]));
        c[..|kept|] == kept && c[|kept|..] == old(c[..])[|kept|..]
      ensures !projectionFilter || c.Length == 0 ==> c[..] == old(c[..])
      ensures r.Success? ==>
        r.value == Search(p[..], Segs(), Params(), SearchedCloud(old(c[..]), projectionFilter))
    {
      var l1 := p.Length;
      var l2 := c.Length;
      var lmet2 := lmet * lmet;
      assert lmet2 == Params().lmet2 > 0.0;

      if projectionFilter && l2 >= 1 {
        l2 := FilterByBearing(c);
      }
      if l2 == 0 || l1 == 0 {
        return Failure(IndexOutOfRange);
      }

      assert c[..l2] == SearchedCloud(old(c[..]), projectionFilter);
      var correlations := SearchAll(p, c, l2, lmet2);
      r := Success(correlations);
    }

    /** The trimmed correspondences: the last `KeptCount` ones, latest
        first. A count above the number of correspondences reaches index -1. */
    method GetFilteredCorrespondences(assoc: seq<Correlation>) returns (r: Result<seq<Correlation>>)
      ensures r.Failure? <==> KeptCount(|assoc|, f) > |assoc|
      ensures r.Success? ==>
        |r.value| == (if KeptCount(|assoc|, f) < 0 then 0 else KeptCount(|assoc|, f)) &&
        forall k :: 0 <= k < |r.value| ==> r.value[k] == assoc[|assoc| - 1 - k]
      ensures r == Trimmed(assoc, f)
    {
      var cnew := KeptCount(|assoc|, f);
      var ret: seq<Correlation> := [];
      var i := 0;
      while i < cnew
        invariant 0 <= i && (cnew >= 0 ==> i <= cnew) && (cnew < 0 ==> i == 0)
        invariant i <= |assoc|
        invariant |ret| == i
        invariant forall k :: 0 <= k < i ==> ret[k] == assoc[|assoc| - 1 - k]
      {
        if |assoc| - i - 1 < 0 {
          return Failure(IndexOutOfRange);
        }
        ret := ret + [assoc[|assoc| - i - 1]];
        i := i + 1;
      }
      assert ret == Trimmed(assoc, f).value;
      r := Success(ret);
    }


    /** The correspondences from pose q: scan2 is projected at q and
        searched against reference cloud p. */
    method CorrelationsAt(p: array<Vector4>, scan2: ScanObservation, q: Pose2D, trig: Trig,
                          ghost getQmin: seq<Correlation> -> Result<Pose2D>, ghost compound: (Pose2D, Pose2D) -> Pose2D)
      returns (assoc: Result<seq<Correlation>>)
      requires SegmentsFit(p.Length) && lmet != 0.0
      ensures assoc == Found(Setting(p[..], scan2, trig, getQmin, compound), q)
    {
      var c := ToPoints(scan2, q, trig);
      assoc := CorrelatePointsMB(p, c);
    }

    /** One iteration of the matching loop from pose q: project scan2 at q,
        search and trim the correspondences against reference cloud p, take
        the step `getQmin` computes for them, compose it into the pose, and
        measure the residual of the trimmed correspondences under that
        step: exactly `StepAt` for the matcher's current setting. */
    method Iterate(p: array<Vector4>, scan2: ScanObservation, q: Pose2D, trig: Trig,
                   getQmin: seq<Correlation> -> Result<Pose2D>, compound: (Pose2D, Pose2D) -> Pose2D)
      returns (r: Result<Step>)
      requires SegmentsFit(p.Length) && lmet != 0.0
      ensures r == StepAt(Setting(p[..], scan2, trig, getQmin, compound), q)
    {
      var assoc := CorrelationsAt(p, scan2, q, trig, getQmin, compound);
      if assoc.Failure? {
        return Failure(assoc.error);
      }
      var filtered := GetFilteredCorrespondences(assoc.value);
      if filtered.Failure? {
        return Failure(filtered.error);
      }
      var solved := getQmin(filtered.value);
      if solved.Failure? {
        return Failure(solved.error);
      }
      var qMin := solved.value;
      var q' := compound(qMin, q);

      var cosw := trig.cos(qMin.Rotation);
      var sinw := trig.sin(qMin.Rotation);
      var error := ResidualError(filtered.value, cosw, sinw, qMin.X, qMin.Y);
      r := Success(Step(qMin, q', error));
    }

    /** An iteration of the loop of `Match` from pose q, as `it` yields it:
        `it` is `StepAt` for the problem the matcher's state describes, and
        `solvable` is `Solvable` for it. */
    method Advance(p: array<Vector4>, scan2: ScanObservation, q: Pose2D, trig: Trig,
                   getQmin: seq<Correlation> -> Result<Pose2D>, compound: (Pose2D, Pose2D) -> Pose2D,
                   ghost pb: Problem, ghost it: Pose2D -> Result<Step>, ghost solvable: Pose2D -> bool)
      returns (step: Result<Step>)
      requires SegmentsFit(p.Length) && lmet != 0.0
      requires pb == Setting(p[..], scan2, trig, getQmin, compound)
      requires forall q' {:trigger StepAt(pb, q')} :: it(q') == StepAt(pb, q')
      requires forall q' {:trigger Solvable(pb, q')} :: solvable(q') == Solvable(pb, q')
      ensures step == it(q)
      ensures p.Length == 0 ==> step.Failure?
      ensures (&& p.Length > 0
               && |Projected(scan2.samples, scan2.factor, q, trig, maxLaserRange)| > 0
               && 0.0 <= f <= 1.0
               && solvable(q)) ==> step.Success?
      ensures step.Success? ==> step.value.error >= 0.0
    {
      step := Iterate(p, scan2, q, trig, getQmin, compound);
      StepAtOutcome(pb, q);
    }

    /** The loop of `Match` against the prepared reference cloud p, starting
        from pose initQ, with the previous error in a local that starts at
        `BIG_INITIAL_ERROR` and ends as `lastError`. Ghost `poses` records
        the pose each iteration starts from and the last pose reached,
        `steps` and `errors` each iteration's step and residual (`Trace`),
        and `passes` whether the exit test held. Ghost `solvable` tells,
        pose by pose, whether the least-squares step from there has a
        solution (`Solvable`). */
    method IterationLoop(p: array<Vector4>, scan2: ScanObservation, initQ: Pose2D, trig: Trig,
                      getQmin: seq<Correlation> -> Result<Pose2D>, compound: (Pose2D, Pose2D) -> Pose2D,
                      ghost pb: Problem, ghost it: Pose2D -> Result<Step>, ghost solvable: Pose2D -> bool)
      returns (r: Result<MatchResult>, lastError: real, ghost passes: seq<bool>, ghost errors: seq<real>, ghost steps: seq<Pose2D>,
               ghost poses: seq<Pose2D>)
      requires SegmentsFit(p.Length) && lmet != 0.0
      requires pb == Setting(p[..], scan2, trig, getQmin, compound)
      requires forall q' {:trigger StepAt(pb, q')} :: it(q') == StepAt(pb, q')
      requires forall q' {:trigger Solvable(pb, q')} :: solvable(q') == Solvable(pb, q')
      ensures lastError == if |errors| == 0 then BigInitialError else errors[|errors| - 1]
      ensures Trace(it, initQ, poses, errors, steps)
      ensures |passes| == |steps|
      // the run stops early only when the next iteration fails
      ensures r.Failure? ==> it(poses[|poses| - 1]).Failure?
      // an empty reference cloud: the search fails at once
      ensures p.Length == 0 ==> r.Failure?
      // non-empty clouds, a fraction F in [0, 1] and solvable steps: nothing fails
      ensures (&& p.Length > 0
               && (forall q :: |Projected(scan2.samples, scan2.factor, q, trig, maxLaserRange)| > 0)
               && 0.0 <= f <= 1.0
               && (forall q :: solvable(q))) ==> r.Success?
      ensures Recorded(passes, errors, steps, BigInitialError, minError)
      // the loop stops at the first iteration whose trailing run of passes exceeds IterSmoothConv
      ensures |passes| > 0 ==> RunsBelow(passes[..|passes| - 1], iterSmoothConv)
      ensures r.Success? ==>
        r.value.initial == initQ && r.value.estimate == poses[|poses| - 1] &&
        |passes| > 0
      ensures r.Success? && r.value.converged ==>
        r.value.iterations == |passes| - 1 < MaxIterations && TrailingPasses(passes) > iterSmoothConv
      ensures r.Success? && !r.value.converged ==>
        r.value.iterations == |passes| == MaxIterations && TrailingPasses(passes) <= iterSmoothConv
    {
      var q := initQ;
      var numConverged := 0;
      var numIterations := 0;
      lastError := BigInitialError;
      var stopped := false;
      passes, errors, steps, poses := [], [], [], [initQ];

      while numIterations < MaxIterations
        modifies {}
        invariant !stopped
        invariant 0 <= numIterations <= MaxIterations
        invariant numIterations > 0 ==> p.Length > 0
        invariant |passes| == numIterations
        invariant numConverged == TrailingPasses(passes)
        invariant RunsBelow(passes, iterSmoothConv)
        invariant Recorded(passes, errors, steps, BigInitialError, minError)
        invariant lastError == if numIterations == 0 then BigInitialError else errors[numIterations - 1]
        invariant Trace(it, initQ, poses, errors, steps) && q == poses[|poses| - 1]
      {
        var step := Advance(p, scan2, q, trig, getQmin, compound, pb, it, solvable);
        if step.Failure? {
          if |passes| > 0 {
            RunsBelowPrefix(passes, iterSmoothConv);
          }
          assert || p.Length == 0 || |Projected(scan2.samples, scan2.factor, q, trig, maxLaserRange)| == 0
                 || !(0.0 <= f <= 1.0) || !solvable(q);
          r, stopped := Failure(step.error), true;
          break;
        }
        TraceStep(it, initQ, poses, errors, steps, step.value);
        var qMin := step.value.qMin;
        var error := step.value.error;
        q := step.value.q;

        var pass := RatioTest(error, lastError, minError) || SmallStep(qMin, minError);
        TrailingPassesStep(passes, pass);
        RecordedStep(passes, errors, steps, BigInitialError, minError, pass, error, qMin);
        if pass {
          numConverged := numConverged + 1;
        } else {
          numConverged := 0;
        }
        lastError := error;
        ghost var before := passes;
        passes, errors, steps, poses := passes + [pass], errors + [error], steps + [qMin], poses + [q];

        if numConverged > iterSmoothConv {
          assert passes[..|passes| - 1] == before;
          r, stopped := Success(MatchResult(initQ, q, numIterations, true)), true;
          break;
        }
        RunsBelowStep(before, pass, iterSmoothConv);
        numIterations := numIterations + 1;
      }
      if !stopped {
        RunsBelowPrefix(passes, iterSmoothConv);
        assert passes[..|passes|] == passes;
        r := Success(MatchResult(initQ, q, MaxIterations, false));
      }
    }

    /** The iterations of `Match` against the prepared reference cloud p,
        starting from pose initQ: the loop, then `error_k1` holds the last
        residual. Ghost `poses` records the pose each iteration starts from
        and the last pose reached, `steps` and `errors` each iteration's
        step and residual (`Trace`), and `passes` whether the exit test
        held. Ghost `solvable` tells, pose by pose, whether the
        least-squares step from there has a solution (`Solvable`). */
    method Iterations(p: array<Vector4>, scan2: ScanObservation, initQ: Pose2D, trig: Trig,
                      getQmin: seq<Correlation> -> Result<Pose2D>, compound: (Pose2D, Pose2D) -> Pose2D,
                      ghost pb: Problem, ghost it: Pose2D -> Result<Step>, ghost solvable: Pose2D -> bool)
      returns (r: Result<MatchResult>, ghost passes: seq<bool>, ghost errors: seq<real>, ghost steps: seq<Pose2D>,
               ghost poses: seq<Pose2D>)
      requires SegmentsFit(p.Length) && lmet != 0.0 && errorK1 == BigInitialError
      requires pb == Setting(p[..], scan2, trig, getQmin, compound)
      requires forall q' {:trigger StepAt(pb, q')} :: it(q') == StepAt(pb, q')
      requires forall q' {:trigger Solvable(pb, q')} :: solvable(q') == Solvable(pb, q')
      modifies this`errorK1
      ensures Setting(pb.reference, scan2, trig, getQmin, compound) == pb
      ensures Trace(it, initQ, poses, errors, steps)
      ensures |passes| == |steps|
      // the run stops early only when the next iteration fails
      ensures r.Failure? ==> it(poses[|poses| - 1]).Failure?
      // an empty reference cloud: the search fails at once
      ensures p.Length == 0 ==> r.Failure?
      // non-empty clouds, a fraction F in [0, 1] and solvable steps: nothing fails
      ensures (&& p.Length > 0
               && (forall q :: |Projected(scan2.samples, scan2.factor, q, trig, maxLaserRange)| > 0)
               && 0.0 <= f <= 1.0
               && (forall q :: solvable(q))) ==> r.Success?
      ensures Recorded(passes, errors, steps, BigInitialError, minError)
      // the loop stops at the first iteration whose trailing run of passes exceeds IterSmoothConv
      ensures |passes| > 0 ==> RunsBelow(passes[..|passes| - 1], iterSmoothConv)
      // error_k1 holds the last residual measured, or BIG_INITIAL_ERROR if none was
      ensures errorK1 == if |errors| == 0 then BigInitialError else errors[|errors| - 1]
      ensures r.Success? ==>
        r.value.initial == initQ && r.value.estimate == poses[|poses| - 1] && |passes| > 0
      ensures r.Success? && r.value.converged ==>
        r.value.iterations == |passes| - 1 < MaxIterations && TrailingPasses(passes) > iterSmoothConv
      ensures r.Success? && !r.value.converged ==>
        r.value.iterations == |passes| == MaxIterations && TrailingPasses(passes) <= iterSmoothConv
    {
      var lastError;
      r, lastError, passes, errors, steps, poses := IterationLoop(p, scan2, initQ, trig, getQmin, compound, pb, it, solvable);
      errorK1 := lastError;
    }

    /** Matches scan2 against reference scan1 from initial pose initQ: the
        length tunables are rescaled to scan1's unit, scan1 is projected at
        the origin and preprocessed as the reference, and the iterations
        run from initQ. */
    method Match(scan1: ScanObservation, scan2: ScanObservation, initQ: Pose2D, trig: Trig,
                 getQmin: seq<Correlation> -> Result<Pose2D>, compound: (Pose2D, Pose2D) -> Pose2D)
      returns (r: Result<MatchResult>, ghost passes: seq<bool>, ghost errors: seq<real>, ghost steps: seq<Pose2D>,
               ghost poses: seq<Pose2D>)
      requires lmet * scan1.factor != 0.0
      modifies this`maxLaserRange, this`lmet, this`br, this`maxDistInter, this`errorK1
      modifies this`refdqx, this`refdqx2, this`refdqy, this`refdqy2, this`distref, this`refdqxdqy
      ensures maxLaserRange == old(maxLaserRange) * scan1.factor && lmet == old(lmet) * scan1.factor
      ensures br == old(br) * scan1.factor && maxDistInter == old(maxDistInter) * scan1.factor
      ensures lmet != 0.0
      // the reference cloud is scan1 projected at the origin, with its segments precomputed
      ensures var ref := Projected(scan1.samples, scan1.factor, Pose2D(0.0, 0.0, 0.0), trig, maxLaserRange);
        SegmentsFit(|ref|) && Segs().Describes(ref)
      ensures var ref := Projected(scan1.samples, scan1.factor, Pose2D(0.0, 0.0, 0.0), trig, maxLaserRange);
        var pb := Setting(ref, scan2, trig, getQmin, compound);
        && Trace(Iteration(pb), initQ, poses, errors, steps)
        && (r.Failure? ==> StepAt(pb, poses[|poses| - 1]).Failure?)
        && (r.Success? ==> r.value.estimate == poses[|poses| - 1])
      ensures |passes| == |steps|
      // the reference cloud is empty: the search fails at once
      ensures |Projected(scan1.samples, scan1.factor, Pose2D(0.0, 0.0, 0.0), trig, maxLaserRange)| == 0 ==> r.Failure?
      // non-empty clouds, a fraction F in [0, 1] and solvable steps: nothing fails
      ensures var ref := Projected(scan1.samples, scan1.factor, Pose2D(0.0, 0.0, 0.0), trig, maxLaserRange);
        (&& |ref| > 0
         && (forall q :: |Projected(scan2.samples, scan2.factor, q, trig, maxLaserRange)| > 0)
         && 0.0 <= f <= 1.0
         && (forall q :: Solvable(Setting(ref, scan2, trig, getQmin, compound), q))) ==> r.Success?
      ensures Recorded(passes, errors, steps, BigInitialError, minError)
      // the loop stops at the first iteration whose trailing run of passes exceeds IterSmoothConv
      ensures |passes| > 0 ==> RunsBelow(passes[..|passes| - 1], iterSmoothConv)
      // error_k1 holds the last residual measured, or BIG_INITIAL_ERROR if none was
      ensures errorK1 == if |errors| == 0 then BigInitialError else errors[|errors| - 1]
      ensures r.Success? ==> r.value.initial == initQ && |passes| > 0
      ensures r.Success? && r.value.converged ==>
        r.value.iterations == |passes| - 1 < MaxIterations && TrailingPasses(passes) > iterSmoothConv
      ensures r.Success? && !r.value.converged ==>
        r.value.iterations == |passes| == MaxIterations && TrailingPasses(passes) <= iterSmoothConv
    {
      ChangeMBParameterToUnitFactor(scan1.factor);
      var p := ToPoints(scan1, Pose2D(0.0, 0.0, 0.0), trig);
      PreProcessOnRef(p);
      ghost var pb := Setting(p[..], scan2, trig, getQmin, compound);
      r, passes, errors, steps, poses := Iterations(p, scan2, initQ, trig, getQmin, compound, pb, Iteration(pb),
                                                    Solvability(pb));
    }
  }
}
