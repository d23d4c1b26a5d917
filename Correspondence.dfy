/** The correspondence search of the metric-based ICP matcher, as functions
    of its inputs: the projection filter that keeps the current points in
    non-decreasing bearing order, the two-pointer angular window over the
    reference cloud, the per-point association rule and the whole search.
    The imperative code in `Matcher` is proved equal to these. */
module Correspondence {
  import opened Types
  import opened Metric

  /** The tunables the search reads: `ProjectionFilter`, `LMET2` (the
      square of `LMET`), `Br`, `Bw` and `MaxDistInter`. */
  datatype SearchParams = SearchParams(projectionFilter: bool, lmet2: real, br: real, bw: real, maxDistInter: real)

  /** The per-segment values `preProcessOnRef` stores for the reference
      cloud; index i describes the segment from point i to point i + 1. */
  datatype Segments = Segments(dqx: seq<real>, dqx2: seq<real>, dqy: seq<real>, dqy2: seq<real>,
                               distref: seq<real>, dqxdqy: seq<real>)
  {
    predicate Fits(n: nat) {
      |dqx| == n && |dqx2| == n && |dqy| == n && |dqy2| == n && |distref| == n && |dqxdqy| == n
    }

    /** The values `preProcessOnRef` computes for reference cloud p: for
        the segment from point i to point i + 1, the coordinate differences,
        their squares, their product and the squared length; the entry for
        the last point keeps the array's initial zero. */
    ghost predicate Describes(p: seq<Vector4>) {
      && Fits(|p|)
      && (forall i :: 0 <= i < |p| ==>
            Entry(p, i, dqx[i], dqx2[i], dqy[i], dqy2[i], distref[i], dqxdqy[i]))
    }
  }

  /** The values segment i of p holds: the differences to the next point,
      their squares, the squared length and the cross product; the entry of
      the last point is all zero. */
  ghost predicate Entry(p: seq<Vector4>, i: nat, dx: real, dx2: real, dy: real, dy2: real, d: real, dxy: real)
    requires i < |p|
  {
    if i < |p| - 1 then
      && dx == p[i].X - p[i + 1].X
      && dy == p[i].Y - p[i + 1].Y
      && dx2 == dx * dx
      && dy2 == dy * dy
      && d == dx2 + dy2
      && dxy == dx * dy
    else
      dx == 0.0 && dx2 == 0.0 && dy == 0.0 && dy2 == 0.0 && d == 0.0 && dxy == 0.0
  }

  predicate SortedByBearing(s: seq<Vector4>) {
    forall a, b :: 0 <= a < b < |s| ==> s[a].T <= s[b].T
  }

  // ---------------------------------------------------------------------
  // Projection filter

  /** The indices of s[..n] the projection filter keeps: the first point,
      then every point whose bearing is at least that of the last point
      kept. */
  function CompactIndices(s: seq<Vector4>, n: nat): (r: seq<nat>)
    requires 1 <= n <= |s|
    ensures 1 <= |r| <= n && r[0] == 0
    ensures forall a :: 0 <= a < |r| ==> r[a] < n
  {
    if n == 1 then [0]
    else
      var k := CompactIndices(s, n - 1);
      if s[n - 1].T >= s[k[|k| - 1]].T then k + [n - 1] else k
  }

  /** The kept indices are strictly increasing: the filter keeps a
      subsequence of the cloud. */
  lemma {:induction false} CompactIndicesIncreasing(s: seq<Vector4>, n: nat)
    requires 1 <= n <= |s|
    ensures forall a, b :: 0 <= a < b < |CompactIndices(s, n)| ==> CompactIndices(s, n)[a] < CompactIndices(s, n)[b]
  {
    if n > 1 {
      CompactIndicesIncreasing(s, n - 1);
      var k := CompactIndices(s, n - 1);
      var r := CompactIndices(s, n);
      if s[n - 1].T >= s[k[|k| - 1]].T {
        assert r == k + [n - 1];
        forall a, b | 0 <= a < b < |r|
          ensures r[a] < r[b]
        {
          assert r[a] == k[a];
          if b < |k| {
            assert r[b] == k[b];
          } else {
            assert r[b] == n - 1;
          }
        }
      } else {
        assert r == k;
      }
    }
  }

  /** One step of the filter: point i is kept exactly when its bearing is
      at least that of the last point kept before it. */
  lemma CompactIndicesStep(s: seq<Vector4>, i: nat)
    requires 1 <= i < |s|
    ensures var k := CompactIndices(s, i);
      CompactIndices(s, i + 1) == if s[i].T >= s[k[|k| - 1]].T then k + [i] else k
  {
  }

  function Gather(s: seq<Vector4>, idx: seq<nat>): (r: seq<Vector4>)
    requires forall a :: 0 <= a < |idx| ==> idx[a] < |s|
  {
    seq(|idx|, a requires 0 <= a < |idx| => s[idx[a]])
  }

  /** The current cloud after the projection filter. */
  function Compacted(s: seq<Vector4>): (r: seq<Vector4>)
    requires |s| >= 1
    ensures 1 <= |r| <= |s| && r[0] == s[0]
  {
    Gather(s, CompactIndices(s, |s|))
  }

  /** The in-place layout while the filter runs: the first cnt points of
      cs are the points of s at kept indices k, the others those of s. */
  ghost predicate InPlace(cs: seq<Vector4>, s: seq<Vector4>, k: seq<nat>, cnt: nat) {
    && |cs| == |s| && |k| == cnt <= |cs|
    && (forall a {:trigger cs[a]} :: 0 <= a < cnt ==> k[a] < |s| && cs[a] == s[k[a]])
    && (forall a {:trigger cs[a]} :: cnt <= a < |cs| ==> cs[a] == s[a])
  }

  /** Keeping point i (not yet overwritten) moves it to slot cnt. */
  lemma InPlaceKeep(cs: seq<Vector4>, s: seq<Vector4>, k: seq<nat>, cnt: nat, i: nat)
    requires InPlace(cs, s, k, cnt) && cnt <= i < |cs|
    ensures InPlace(cs[cnt := cs[i]], s, k + [i], cnt + 1)
  {
    var cs', k' := cs[cnt := cs[i]], k + [i];
    assert cs[i] == s[i];
    forall a | 0 <= a < cnt + 1
      ensures k'[a] < |s| && cs'[a] == s[k'[a]]
    {
      if a < cnt {
        assert cs'[a] == cs[a] && k'[a] == k[a];
      }
    }
    forall a | cnt + 1 <= a < |cs'|
      ensures cs'[a] == s[a]
    {
      assert cs'[a] == cs[a];
    }
  }

  /** The state of the filter before point i: k are the indices kept
      among the first i points, laid out in place in cs. */
  ghost predicate Filtering(cs: seq<Vector4>, s: seq<Vector4>, k: seq<nat>, cnt: nat, i: nat) {
    1 <= cnt <= i <= |s| && k == CompactIndices(s, i) && InPlace(cs, s, k, cnt)
  }

  /** Before the filter runs, the first point is kept where it stands. */
  lemma FilterStart(s: seq<Vector4>)
    requires |s| >= 1
    ensures Filtering(s, s, [0], 1, 1)
  {
  }

  /** Once every point has been seen, the cloud holds the compacted cloud
      followed by the untouched tail of s. */
  lemma FilterDone(cs: seq<Vector4>, s: seq<Vector4>, k: seq<nat>, cnt: nat)
    requires Filtering(cs, s, k, cnt, |s|)
    ensures cnt == |Compacted(s)|
    ensures cs[..cnt] == Compacted(s) && cs[cnt..] == s[cnt..]
  {
    assert cs[cnt..] == s[cnt..];
    assert cs[..cnt] == Gather(s, k);
  }

  /** Point i at or above the last kept bearing is kept and moved to slot cnt. */
  lemma FilterKeep(cs: seq<Vector4>, s: seq<Vector4>, k: seq<nat>, cnt: nat, i: nat)
    requires Filtering(cs, s, k, cnt, i) && i < |s| && cs[i].T >= cs[cnt - 1].T
    ensures Filtering(cs[cnt := cs[i]], s, k + [i], cnt + 1, i + 1)
  {
    CompactIndicesStep(s, i);
    assert cs[cnt - 1] == s[k[cnt - 1]] && cs[i] == s[i];
    InPlaceKeep(cs, s, k, cnt, i);
  }

  /** Point i below the last kept bearing is dropped and nothing moves. */
  lemma FilterSkip(cs: seq<Vector4>, s: seq<Vector4>, k: seq<nat>, cnt: nat, i: nat)
    requires Filtering(cs, s, k, cnt, i) && i < |s| && cs[i].T < cs[cnt - 1].T
    ensures Filtering(cs, s, k, cnt, i + 1)
  {
    CompactIndicesStep(s, i);
    assert cs[cnt - 1] == s[k[cnt - 1]] && cs[i] == s[i];
  }

  /** The kept indices, in order, select points of non-decreasing bearing. */
  ghost predicate KeptInOrder(s: seq<Vector4>, r: seq<nat>)
    requires forall a :: 0 <= a < |r| ==> r[a] < |s|
  {
    forall a, b :: 0 <= a < b < |r| ==> s[r[a]].T <= s[r[b]].T
  }

  /** Index j is not among the kept indices r. */
  ghost predicate Dropped(r: seq<nat>, j: int) {
    j !in r
  }

  /** Every index below n that the filter dropped has a bearing below that
      of some earlier kept point. */
  ghost predicate DroppedOnlyDisordered(s: seq<Vector4>, r: seq<nat>, n: nat)
    requires n <= |s| && forall a :: 0 <= a < |r| ==> r[a] < |s|
  {
    forall j {:trigger Dropped(r, j)} :: 0 <= j < n && Dropped(r, j) ==>
      exists a :: 0 <= a < |r| && r[a] < j && s[j].T < s[r[a]].T
  }

  /** The kept points are in non-decreasing bearing order. */
  lemma {:induction false} CompactSorted(s: seq<Vector4>, n: nat)
    requires 1 <= n <= |s|
    ensures KeptInOrder(s, CompactIndices(s, n))
  {
    if n > 1 {
      var r := CompactIndices(s, n);
      var k := CompactIndices(s, n - 1);
      CompactSorted(s, n - 1);
      if r != k {
        assert r == k + [n - 1];
        var last := k[|k| - 1];
        assert s[last].T <= s[n - 1].T;
        forall a, b | 0 <= a < b < |r|
          ensures s[r[a]].T <= s[r[b]].T
        {
          assert r[a] == k[a];
          if b == |r| - 1 {
            assert r[b] == n - 1;
            if a < |k| - 1 {
              assert s[k[a]].T <= s[k[|k| - 1]].T;
            }
          } else {
            assert r[b] == k[b];
          }
        }
      }
    }
  }

  /** The current cloud after the projection filter is bearing-sorted. */
  lemma CompactedSorted(s: seq<Vector4>)
    requires |s| >= 1
    ensures SortedByBearing(Compacted(s))
  {
    CompactSorted(s, |s|);
  }

  /** Keeping point n - 1 adds no dropped index. */
  lemma DroppedAfterKeep(s: seq<Vector4>, n: nat)
    requires 2 <= n <= |s|
    requires DroppedOnlyDisordered(s, CompactIndices(s, n - 1), n - 1)
    requires var k := CompactIndices(s, n - 1); s[n - 1].T >= s[k[|k| - 1]].T
    ensures DroppedOnlyDisordered(s, CompactIndices(s, n), n)
  {
    var k := CompactIndices(s, n - 1);
    var r := CompactIndices(s, n);
    assert r == k + [n - 1];
    forall j | 0 <= j < n && Dropped(r, j)
      ensures exists a :: 0 <= a < |r| && r[a] < j && s[j].T < s[r[a]].T
    {
      assert j != n - 1 by { assert r[|r| - 1] == n - 1; }
      assert Dropped(k, j) by { assert forall x :: x in k ==> x in r; }
      var a :| 0 <= a < |k| && k[a] < j && s[j].T < s[k[a]].T;
      assert r[a] == k[a];
    }
  }

  /** Dropping point n - 1 because it lies below the last kept bearing. */
  lemma DroppedAfterSkip(s: seq<Vector4>, n: nat)
    requires 2 <= n <= |s|
    requires DroppedOnlyDisordered(s, CompactIndices(s, n - 1), n - 1)
    requires var k := CompactIndices(s, n - 1); s[n - 1].T < s[k[|k| - 1]].T
    ensures DroppedOnlyDisordered(s, CompactIndices(s, n), n)
  {
    var k := CompactIndices(s, n - 1);
    assert CompactIndices(s, n) == k;
    forall j | 0 <= j < n && Dropped(k, j)
      ensures exists a :: 0 <= a < |k| && k[a] < j && s[j].T < s[k[a]].T
    {
      if j == n - 1 {
        assert k[|k| - 1] < j && s[j].T < s[k[|k| - 1]].T;
      }
    }
  }

  /** A point is dropped only when its bearing is below that of a point
      kept before it: the filter removes exactly the points that would
      break the order. */
  lemma {:induction false} CompactDropsOnlyDisordered(s: seq<Vector4>, n: nat)
    requires 1 <= n <= |s|
    ensures DroppedOnlyDisordered(s, CompactIndices(s, n), n)
  {
    if n == 1 {
      assert CompactIndices(s, n) == [0];
      assert !Dropped(CompactIndices(s, n), 0);
    } else {
      var k := CompactIndices(s, n - 1);
      CompactDropsOnlyDisordered(s, n - 1);
      if s[n - 1].T >= s[k[|k| - 1]].T {
        DroppedAfterKeep(s, n);
      } else {
        DroppedAfterSkip(s, n);
      }
    }
  }

  /** On a bearing-sorted cloud the filter keeps every point. */
  lemma {:induction false} CompactKeepsSorted(s: seq<Vector4>, n: nat)
    requires 1 <= n <= |s| && SortedByBearing(s)
    ensures CompactIndices(s, n) == seq(n, a => a)
  {
    if n > 1 {
      CompactKeepsSorted(s, n - 1);
      var k := CompactIndices(s, n - 1);
      assert k[|k| - 1] == n - 2;
      assert s[n - 2].T <= s[n - 1].T;
      assert seq(n - 1, a => a) + [n - 1] == seq(n, a => a);
    }
  }

  /** The filter is the identity on bearing-sorted clouds; in particular,
      filtering twice is filtering once. */
  lemma CompactedOfSorted(s: seq<Vector4>)
    requires |s| >= 1 && SortedByBearing(s)
    ensures Compacted(s) == s
  {
    CompactKeepsSorted(s, |s|);
  }

  // ---------------------------------------------------------------------
  // The angular window [t - bw, t + bw) over the reference cloud

  /** The left edge of the window: from L on, skip reference points whose
      bearing lies below t - bw, stopping at the last point. */
  function AdvanceL(p: seq<Vector4>, t: real, bw: real, L: nat): (r: nat)
    requires L < |p|
    ensures L <= r < |p|
    decreases |p| - L
  {
    if L < |p| - 1 && t - bw > p[L].T then AdvanceL(p, t, bw, L + 1) else L
  }

  /** The right edge of the window: from R on, advance while the next
      reference point's bearing lies below t + bw. */
  function AdvanceR(p: seq<Vector4>, t: real, bw: real, R: nat): (r: nat)
    requires R < |p|
    ensures R <= r < |p|
    decreases |p| - R
  {
    if R < |p| - 1 && t + bw > p[R + 1].T then AdvanceR(p, t, bw, R + 1) else R
  }

  /** The first current point to consider when the current scan starts
      more than bw before the reference scan. */
  function SkipIo(cs: seq<Vector4>, t0: real, bw: real, io: nat): (r: nat)
    requires io < |cs|
    ensures io <= r < |cs|
    decreases |cs| - io
  {
    if io < |cs| - 1 && cs[io].T + bw < t0 then SkipIo(cs, t0, bw, io + 1) else io
  }

  datatype Window = Window(io: nat, l: nat, r: nat)

  /** The initial window for the first current point. */
  function InitialWindow(p: seq<Vector4>, cs: seq<Vector4>, bw: real): (w: Window)
    requires |p| >= 1 && |cs| >= 1
    ensures w.io < |cs| && w.l < |p| && w.r < |p|
  {
    if cs[0].T < p[0].T then
      if cs[0].T + bw < p[0].T then Window(SkipIo(cs, p[0].T, bw, 0), 0, 0)
      else Window(0, 0, AdvanceR(p, cs[0].T, bw, 0))
    else
      var l := AdvanceL(p, cs[0].T, bw, 0);
      Window(0, l, AdvanceR(p, cs[0].T, bw, l))
  }

  // ---------------------------------------------------------------------
  // The association rule for one current point

  /** The candidate closest point on segment J (from reference point J - 1
      to J) for current point pt, with its metric distance from pt, or None
      when its coordinates are NaN. */
  function SegmentCandidate(p: seq<Vector4>, segs: Segments, pt: Vector4, lmet2: real, maxDistInter: real, j: nat): (r: Option<Candidate>)
    requires 1 <= j < |p| && segs.Fits(|p|) && lmet2 > 0.0
    ensures r.Some? ==> r.value.d == MetricDist(pt.X, pt.Y, r.value.x, r.value.y, lmet2) && r.value.d >= 0.0
  {
    var q1 := XY(p[j - 1]);
    var q2 := XY(p[j]);
    var landa := LandaMin(pt.X, pt.Y, q1.X, q1.Y, segs.dqx[j - 1], segs.dqy[j - 1],
                          segs.dqx2[j - 1], segs.dqy2[j - 1], segs.dqxdqy[j - 1], lmet2);
    match SegmentPoint(landa, q1, q2, segs.distref[j - 1], maxDistInter)
    case None => None
    case Some(q) => Some(Candidate(q.X, q.Y, MetricDist(pt.X, pt.Y, q.X, q.Y, lmet2)))
  }

  /** For the preprocessed values of p, `landaMin` is NaN only on a
      segment whose end points coincide (squared length zero); on every
      other segment the projection parameter is a number. */
  lemma LandaNaNOnlyOnDegenerateSegment(p: seq<Vector4>, segs: Segments, pt: Vector4, lmet2: real, j: nat)
    requires 1 <= j < |p| && segs.Describes(p) && lmet2 > 0.0
    ensures var q1 := XY(p[j - 1]);
      LandaMin(pt.X, pt.Y, q1.X, q1.Y, segs.dqx[j - 1], segs.dqy[j - 1],
               segs.dqx2[j - 1], segs.dqy2[j - 1], segs.dqxdqy[j - 1], lmet2).NaN? ==>
      segs.distref[j - 1] == 0.0 &&
      (p[j - 1].X - p[j].X) * (p[j - 1].X - p[j].X) + (p[j - 1].Y - p[j].Y) * (p[j - 1].Y - p[j].Y) == 0.0
  {
    LandaDenominatorZero(pt.X, pt.Y, segs.dqx[j - 1], segs.dqy[j - 1], lmet2);
  }

  /** A candidate replaces the best so far only when strictly closer. */
  function Closer(cand: Option<Candidate>, best: Candidate): (r: Candidate)
    ensures r.d <= best.d
    ensures r == best || (cand == Some(r) && r.d < best.d)
    ensures cand.Some? && cand.value.d < best.d ==> r == cand.value
  {
    if cand.Some? && cand.value.d < best.d then cand.value else best
  }

  /** The start value of the best candidate: the origin at `double.MaxValue`. */
  const NoCandidate := Candidate(0.0, 0.0, DoubleMax)

  /** The best candidate over segments j..R, starting from `best`. */
  function BestFrom(p: seq<Vector4>, segs: Segments, pt: Vector4, lmet2: real, maxDistInter: real,
                    j: nat, R: nat, best: Candidate): Candidate
    requires 1 <= j <= R + 1 && R < |p| && segs.Fits(|p|) && lmet2 > 0.0
    decreases R + 1 - j
  {
    if j > R then best
    else BestFrom(p, segs, pt, lmet2, maxDistInter, j + 1, R,
                  Closer(SegmentCandidate(p, segs, pt, lmet2, maxDistInter, j), best))
  }

  /** The kept candidate is the FIRST one reaching the minimum distance
      over segments j..R (later ties lose to the strict comparison), or the
      start value when no candidate beats it. */
  lemma {:induction false} BestIsFirstMinimum(p: seq<Vector4>, segs: Segments, pt: Vector4, lmet2: real,
                                              maxDistInter: real, j: nat, R: nat, best: Candidate)
    requires 1 <= j <= R + 1 && R < |p| && segs.Fits(|p|) && lmet2 > 0.0
    ensures var b := BestFrom(p, segs, pt, lmet2, maxDistInter, j, R, best);
      && b.d <= best.d
      && (forall k :: j <= k <= R && SegmentCandidate(p, segs, pt, lmet2, maxDistInter, k).Some? ==>
            b.d <= SegmentCandidate(p, segs, pt, lmet2, maxDistInter, k).value.d)
      && ((b == best &&
           forall k :: j <= k <= R && SegmentCandidate(p, segs, pt, lmet2, maxDistInter, k).Some? ==>
             best.d <= SegmentCandidate(p, segs, pt, lmet2, maxDistInter, k).value.d)
          || (exists k :: j <= k <= R && SegmentCandidate(p, segs, pt, lmet2, maxDistInter, k) == Some(b) &&
               b.d < best.d &&
               forall k' :: j <= k' < k && SegmentCandidate(p, segs, pt, lmet2, maxDistInter, k').Some? ==>
                 b.d < SegmentCandidate(p, segs, pt, lmet2, maxDistInter, k').value.d))
    decreases R + 1 - j
  {
    if j <= R {
      var cand := SegmentCandidate(p, segs, pt, lmet2, maxDistInter, j);
      var next := Closer(cand, best);
      BestIsFirstMinimum(p, segs, pt, lmet2, maxDistInter, j + 1, R, next);
      var b := BestFrom(p, segs, pt, lmet2, maxDistInter, j, R, best);
      assert b == BestFrom(p, segs, pt, lmet2, maxDistInter, j + 1, R, next);
      if b == next && next != best {
        assert cand == Some(b);
      }
    }
  }

  /** The association of current point pt with window [L, R]: a single
      reference point (L == R), the best segment point (L < R), each
      accepted only below the radial threshold br, or the fallback at the
      origin with distance exactly br (L > R). */
  function Associate(p: seq<Vector4>, segs: Segments, prm: SearchParams, pt: Vector4, L: nat, R: nat): Option<Correlation>
    requires L < |p| && R < |p| && segs.Fits(|p|) && prm.lmet2 > 0.0
  {
    var lmet2 := prm.lmet2;
    if L == R then
      var dist := MetricDist(pt.X, pt.Y, p[R].X, p[R].Y, lmet2);
      if dist < prm.br then Some(Correlation(XY(p[R]), XY(pt), dist)) else None
    else if L < R then
      var b := BestFrom(p, segs, pt, lmet2, prm.maxDistInter, L + 1, R, NoCandidate);
      if b.d < prm.br then Some(Correlation(Vector2(b.x, b.y), XY(pt), b.d)) else None
    else
      Some(Correlation(Vector2(0.0, 0.0), XY(pt), prm.br))
  }

  /** The point at parameter mu on the reference segment from point j - 1
      to point j. */
  function OnSegment(p: seq<Vector4>, j: nat, mu: real): Vector2
    requires 1 <= j < |p|
  {
    Lerp(XY(p[j - 1]), XY(p[j]), mu)
  }

  /** What one current point contributes: the fallback exactly when the
      window is inverted; otherwise nothing, or a correlation whose metric
      distance lies in [0, br) and whose reference point is the window's
      single point or lies on one of its segments. A correlation is made
      exactly when the candidate's metric distance is below br: the single
      point's when the window holds one point, the best segment point's
      when it holds several. */
  lemma AssociateOutcome(p: seq<Vector4>, segs: Segments, prm: SearchParams, pt: Vector4, L: nat, R: nat)
    requires L < |p| && R < |p| && segs.Fits(|p|) && prm.lmet2 > 0.0
    requires prm.br <= DoubleMax
    ensures L > R ==> Associate(p, segs, prm, pt, L, R) == Some(Correlation(Vector2(0.0, 0.0), XY(pt), prm.br))
    ensures L == R && Associate(p, segs, prm, pt, L, R).Some? ==>
      Associate(p, segs, prm, pt, L, R).value.point1 == XY(p[R])
    ensures L < R && Associate(p, segs, prm, pt, L, R).Some? ==>
      exists j, mu :: L < j <= R && 0.0 <= mu <= 1.0 &&
        Associate(p, segs, prm, pt, L, R).value.point1 == OnSegment(p, j, mu)
    ensures L <= R && Associate(p, segs, prm, pt, L, R).Some? ==>
      var c := Associate(p, segs, prm, pt, L, R).value;
      c.point2 == XY(pt) && 0.0 <= c.distance < prm.br
    ensures L == R ==>
      var dist := MetricDist(pt.X, pt.Y, p[R].X, p[R].Y, prm.lmet2);
      && (Associate(p, segs, prm, pt, L, R).Some? <==> dist < prm.br)
      && (Associate(p, segs, prm, pt, L, R).Some? ==>
            Associate(p, segs, prm, pt, L, R).value == Correlation(XY(p[R]), XY(pt), dist))
    ensures L < R ==>
      var b := BestFrom(p, segs, pt, prm.lmet2, prm.maxDistInter, L + 1, R, NoCandidate);
      && (Associate(p, segs, prm, pt, L, R).Some? <==> b.d < prm.br)
      && (Associate(p, segs, prm, pt, L, R).Some? ==>
            Associate(p, segs, prm, pt, L, R).value == Correlation(Vector2(b.x, b.y), XY(pt), b.d))
  {
    var lmet2 := prm.lmet2;
    var a := Associate(p, segs, prm, pt, L, R);
    if L < R && a.Some? {
      var b := BestFrom(p, segs, pt, lmet2, prm.maxDistInter, L + 1, R, NoCandidate);
      BestIsFirstMinimum(p, segs, pt, lmet2, prm.maxDistInter, L + 1, R, NoCandidate);
      assert b.d < prm.br <= DoubleMax;
      var j :| L < j <= R && SegmentCandidate(p, segs, pt, lmet2, prm.maxDistInter, j) == Some(b);
      var q1, q2 := XY(p[j - 1]), XY(p[j]);
      var landa := LandaMin(pt.X, pt.Y, q1.X, q1.Y, segs.dqx[j - 1], segs.dqy[j - 1],
                            segs.dqx2[j - 1], segs.dqy2[j - 1], segs.dqxdqy[j - 1], lmet2);
      var q := SegmentPoint(landa, q1, q2, segs.distref[j - 1], prm.maxDistInter).value;
      SegmentPointOnSegment(landa, q1, q2, segs.distref[j - 1], prm.maxDistInter);
      var mu :| 0.0 <= mu <= 1.0 && q == Lerp(q1, q2, mu);
      assert a.value.point1 == OnSegment(p, j, mu);
    }
  }

  // ---------------------------------------------------------------------
  // The whole search

  /** The correlations found for current points i.. with the window at
      [L, R] before point i moves it. */
  function SearchFrom(p: seq<Vector4>, segs: Segments, prm: SearchParams, cs: seq<Vector4>, i: nat, L: nat, R: nat): seq<Correlation>
    requires i <= |cs| && L < |p| && R < |p| && segs.Fits(|p|) && prm.lmet2 > 0.0
    decreases |cs| - i
  {
    if i == |cs| then []
    else
      var l := AdvanceL(p, cs[i].T, prm.bw, L);
      var r := AdvanceR(p, cs[i].T, prm.bw, R);
      var rest := SearchFrom(p, segs, prm, cs, i + 1, l, r);
      match Associate(p, segs, prm, cs[i], l, r)
      case Some(c) => [c] + rest
      case None => rest
  }

  /** The correlations the search finds for reference cloud p and (filtered)
      current cloud cs. */
  function Search(p: seq<Vector4>, segs: Segments, prm: SearchParams, cs: seq<Vector4>): seq<Correlation>
    requires |p| >= 1 && |cs| >= 1 && segs.Fits(|p|) && prm.lmet2 > 0.0
  {
    var w := InitialWindow(p, cs, prm.bw);
    SearchFrom(p, segs, prm, cs, w.io, w.l, w.r)
  }

  /** Each current point adds at most one correlation. */
  lemma {:induction false} SearchFromCount(p: seq<Vector4>, segs: Segments, prm: SearchParams, cs: seq<Vector4>, i: nat, L: nat, R: nat)
    requires i <= |cs| && L < |p| && R < |p| && segs.Fits(|p|) && prm.lmet2 > 0.0
    ensures |SearchFrom(p, segs, prm, cs, i, L, R)| <= |cs| - i
    decreases |cs| - i
  {
    if i < |cs| {
      SearchFromCount(p, segs, prm, cs, i + 1, AdvanceL(p, cs[i].T, prm.bw, L), AdvanceR(p, cs[i].T, prm.bw, R));
    }
  }

  /** Every correlation is an accepted one, with metric distance in [0, br),
      or the fallback for some current point, at the origin with distance
      exactly br. So no emitted distance exceeds br. */
  lemma {:induction false} SearchFromDistances(p: seq<Vector4>, segs: Segments, prm: SearchParams, cs: seq<Vector4>, i: nat, L: nat, R: nat)
    requires i <= |cs| && L < |p| && R < |p| && segs.Fits(|p|) && prm.lmet2 > 0.0
    requires prm.br <= DoubleMax
    ensures forall c :: c in SearchFrom(p, segs, prm, cs, i, L, R) ==>
      (0.0 <= c.distance < prm.br ||
       (c.point1 == Vector2(0.0, 0.0) && c.distance == prm.br)) &&
      exists j :: i <= j < |cs| && c.point2 == XY(cs[j])
    decreases |cs| - i
  {
    if i < |cs| {
      var l := AdvanceL(p, cs[i].T, prm.bw, L);
      var r := AdvanceR(p, cs[i].T, prm.bw, R);
      SearchFromDistances(p, segs, prm, cs, i + 1, l, r);
      AssociateOutcome(p, segs, prm, cs[i], l, r);
    }
  }

  // ---------------------------------------------------------------------
  // When the "cannot happen" fallback happens

  /** Every reference point before L lies strictly left of the window for
      bearing t. */
  ghost predicate LeftOf(p: seq<Vector4>, t: real, bw: real, L: nat) {
    forall k :: 0 <= k < L && k < |p| ==> p[k].T < t - bw
  }

  /** No reference bearing lies in the window [t - bw, t + bw). */
  ghost predicate WindowEmpty(p: seq<Vector4>, t: real, bw: real) {
    forall k :: 0 <= k < |p| ==> !(t - bw <= p[k].T < t + bw)
  }

  lemma {:induction false} AdvanceLLeftOf(p: seq<Vector4>, t: real, bw: real, L: nat)
    requires L < |p| && LeftOf(p, t, bw, L)
    ensures LeftOf(p, t, bw, AdvanceL(p, t, bw, L))
    ensures AdvanceL(p, t, bw, L) == |p| - 1 || t - bw <= p[AdvanceL(p, t, bw, L)].T
    decreases |p| - L
  {
    if L < |p| - 1 && t - bw > p[L].T {
      AdvanceLLeftOf(p, t, bw, L + 1);
    }
  }

  lemma {:induction false} AdvanceRStops(p: seq<Vector4>, t: real, bw: real, R: nat)
    requires R < |p|
    ensures AdvanceR(p, t, bw, R) == |p| - 1 || p[AdvanceR(p, t, bw, R) + 1].T >= t + bw
    decreases |p| - R
  {
    if R < |p| - 1 && t + bw > p[R + 1].T {
      AdvanceRStops(p, t, bw, R + 1);
    }
  }

  /** With a bearing-sorted reference cloud and bw >= 0 the window never
      inverts by more than one, and it inverts (L > R) only when no
      reference bearing lies in [t - bw, t + bw). */
  lemma AdvanceWindow(p: seq<Vector4>, t: real, bw: real, L: nat, R: nat)
    requires L < |p| && R < |p| && SortedByBearing(p) && bw >= 0.0 && LeftOf(p, t, bw, L)
    ensures var l, r := AdvanceL(p, t, bw, L), AdvanceR(p, t, bw, R);
      LeftOf(p, t, bw, l) && l <= r + 1 && (l > r ==> WindowEmpty(p, t, bw))
  {
    var l, r := AdvanceL(p, t, bw, L), AdvanceR(p, t, bw, R);
    AdvanceLLeftOf(p, t, bw, L);
    AdvanceRStops(p, t, bw, R);
    if l > r {
      assert p[r + 1].T >= t + bw;
      assert r + 1 == l;
      forall k | 0 <= k < |p|
        ensures !(t - bw <= p[k].T < t + bw)
      {
        if k > r {
          assert p[r + 1].T <= p[k].T;
        }
      }
    }
  }

  lemma LeftOfLater(p: seq<Vector4>, t: real, t': real, bw: real, L: nat)
    requires LeftOf(p, t, bw, L) && t <= t'
    ensures LeftOf(p, t', bw, L)
  {
  }

  /** With bearing-sorted clouds and bw >= 0, the fallback is emitted only
      for current points whose window holds no reference bearing; every
      other correlation has metric distance in [0, br). */
  lemma {:induction false} SearchFromFallbackOnlyInGaps(p: seq<Vector4>, segs: Segments, prm: SearchParams, cs: seq<Vector4>, i: nat, L: nat, R: nat)
    requires i <= |cs| && L < |p| && R < |p| && segs.Fits(|p|) && prm.lmet2 > 0.0
    requires prm.br <= DoubleMax && prm.bw >= 0.0
    requires SortedByBearing(p) && SortedByBearing(cs)
    requires i < |cs| ==> LeftOf(p, cs[i].T, prm.bw, L)
    ensures forall c :: c in SearchFrom(p, segs, prm, cs, i, L, R) ==>
      0.0 <= c.distance < prm.br ||
      exists j :: i <= j < |cs| && c == Correlation(Vector2(0.0, 0.0), XY(cs[j]), prm.br) &&
                  WindowEmpty(p, cs[j].T, prm.bw)
    decreases |cs| - i
  {
    if i < |cs| {
      var l := AdvanceL(p, cs[i].T, prm.bw, L);
      var r := AdvanceR(p, cs[i].T, prm.bw, R);
      AdvanceWindow(p, cs[i].T, prm.bw, L, R);
      if i + 1 < |cs| {
        LeftOfLater(p, cs[i].T, cs[i + 1].T, prm.bw, l);
      }
      SearchFromFallbackOnlyInGaps(p, segs, prm, cs, i + 1, l, r);
      AssociateOutcome(p, segs, prm, cs[i], l, r);
    }
  }

  /** The initial window satisfies the search invariant. */
  lemma InitialWindowLeftOf(p: seq<Vector4>, cs: seq<Vector4>, bw: real)
    requires |p| >= 1 && |cs| >= 1 && SortedByBearing(cs)
    ensures var w := InitialWindow(p, cs, bw); LeftOf(p, cs[w.io].T, bw, w.l)
  {
    var w := InitialWindow(p, cs, bw);
    if !(cs[0].T < p[0].T) {
      AdvanceLLeftOf(p, cs[0].T, bw, 0);
    }
  }

  /** The search over bearing-sorted clouds: every correlation is accepted
      with distance in [0, br), or is the fallback for a current point whose
      angular window is empty. */
  lemma SearchFallbackOnlyInGaps(p: seq<Vector4>, segs: Segments, prm: SearchParams, cs: seq<Vector4>)
    requires |p| >= 1 && |cs| >= 1 && segs.Fits(|p|) && prm.lmet2 > 0.0
    requires prm.br <= DoubleMax && prm.bw >= 0.0
    requires SortedByBearing(p) && SortedByBearing(cs)
    ensures |Search(p, segs, prm, cs)| <= |cs|
    ensures forall c :: c in Search(p, segs, prm, cs) ==>
      0.0 <= c.distance < prm.br ||
      exists j :: 0 <= j < |cs| && c == Correlation(Vector2(0.0, 0.0), XY(cs[j]), prm.br) &&
                  WindowEmpty(p, cs[j].T, prm.bw)
  {
    var w := InitialWindow(p, cs, prm.bw);
    InitialWindowLeftOf(p, cs, prm.bw);
    SearchFromCount(p, segs, prm, cs, w.io, w.l, w.r);
    SearchFromFallbackOnlyInGaps(p, segs, prm, cs, w.io, w.l, w.r);
  }

  /** The fallback is reachable with sorted clouds: reference bearings 0 and
      1.2, current bearings 0 and 0.6, bw = 0.5. The second current point's
      window [0.1, 1.1) is empty, L moves to 1 while R stays at 0, and the
      origin is emitted at distance br. */
  lemma FallbackReachable(segs: Segments, prm: SearchParams)
    requires segs.Fits(2) && prm.lmet2 > 0.0 && prm.bw == 0.5
    ensures var p := [Vector4(1.0, 0.0, 1.0, 0.0), Vector4(0.0, 1.0, 1.0, 1.2)];
            var cs := [Vector4(2.0, 0.0, 2.0, 0.0), Vector4(1.0, 1.0, 1.5, 0.6)];
            SortedByBearing(p) && SortedByBearing(cs) &&
            Correlation(Vector2(0.0, 0.0), XY(cs[1]), prm.br) in Search(p, segs, prm, cs)
  {
    var p := [Vector4(1.0, 0.0, 1.0, 0.0), Vector4(0.0, 1.0, 1.0, 1.2)];
    var cs := [Vector4(2.0, 0.0, 2.0, 0.0), Vector4(1.0, 1.0, 1.5, 0.6)];
    assert InitialWindow(p, cs, 0.5) == Window(0, 0, 0);
    assert AdvanceL(p, 0.6, 0.5, 0) == 1;
    assert AdvanceR(p, 0.6, 0.5, 0) == 0;
    var rest := SearchFrom(p, segs, prm, cs, 1, 0, 0);
    assert rest == [Correlation(Vector2(0.0, 0.0), XY(cs[1]), prm.br)];
  }
}
