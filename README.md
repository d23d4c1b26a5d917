# Metric-based ICP scan matcher

A Dafny model of `MbIcpScanMatcher`, the metric-based iterative closest
point (MbICP) laser scan matcher of the MRL robot software. Given a
reference scan, a current scan and an initial pose guess, the matcher
repeats four steps until the pose estimate settles:

1. It projects the current scan into Cartesian points at the current
   pose guess (`ToPoints`).
2. It pairs each current point with a reference point or with a point
   on a reference segment, under the metric distance of MbICP, which
   discounts the error along the direction of rotation
   (`CorrelatePointsMB`).
3. It keeps a fixed fraction of the pairs (`getFilteredCorrespondances`).
4. It solves for the step that best aligns them, composes the step into
   the pose and measures the residual. Once more than `IterSmoothConv`
   iterations in a row pass the exit test, or after `MAX_ITERATIONS`
   iterations, it stops.

The model has seven modules:

- `Types`: the value records, that is points, poses, correlations,
  range samples and results.
- `Metric`: the metric distance, the segment projection parameter
  `landaMin`, and the rule that picks a point of a reference segment.
- `Correspondence`: the search as functions of its inputs. This covers
  the projection filter, which compacts the current cloud to
  non-decreasing bearings, and the two-pointer angular window over the
  reference cloud. It also covers the association rule for one current
  point and the whole search.
- `Trim`: the C# integer arithmetic of the trim count.
- `Convergence`: the residual, the exit test, and the run of
  consecutive passing iterations.
- `Projection`: the range-scan-to-points projection.
- `Matcher`: the class `MbIcpScanMatcher`.
  - Its tunables and the six precomputation arrays of the reference scan
    are fields.
  - Its operations are methods with loops over arrays.
  - The methods of the search, the trim and the preprocessing are proved
    to compute the functions of the other modules, and the properties are
    proved about those functions.
  - One iteration of the matching loop is a function, `StepAt`: project
    the current scan at a pose, search, trim, solve, compose and measure.
    `Iterate` is proved to compute it for the matcher's current state.
  - The loop of `Match` is proved to follow `StepAt` pose by pose
    (`Trace`). Each pose is the previous one composed with the step taken
    there, each exit test uses the residuals `StepAt` yields, and the
    estimate is the last pose reached. `error_k1` is kept in a local
    during the loop and stored in the field when the loop ends.

Doubles are modelled as `real`. NaN appears in the model only where the
code can produce it from finite inputs. `landaMin` is `0/0` on a
zero-length reference segment. The ratio test divides by the previous
error. A zero previous error makes the quotient NaN or infinite, so the
test fails, and the model records only that outcome. Every
comparison with NaN is false, as in C#. `Math.Cos`, `Math.Sin`, `Math.Atan2`, the least-squares step
`getQmin` and `IcpScanMatcher.CompoundPoses` are parameters of the
operations that use them.

The C# comment calls the `L > R` branch of the search impossible ("cannot
happen"), but it can be reached even with bearing-sorted clouds.
`Correspondence.AdvanceWindow` proves that the window inverts only when
no reference bearing lies within `Bw` of the current point.
`Correspondence.FallbackReachable` exhibits such an input. In that case
the code emits the origin as the reference point, with distance `Br`.
The model keeps this behaviour as written.

## Model

| member | source | states |
|---|---|---|
| Metric.MetricDist | MRLUtilities/Localization/ScanMatchers/MbIcpScanMatcher.cs:297 | The metric distance (the expression of lines 230 and 297) lies between 0 and the squared Euclidean distance, and it is 0 exactly when the two points coincide. |
| Metric.LandaDenominatorZero | MRLUtilities/Localization/ScanMatchers/MbIcpScanMatcher.cs:262-267 | The denominator of `landaMin` is a positive definite form in the segment deltas, so it is zero only for a segment of squared length zero. |
| Metric.SegmentPointOnSegment | MRLUtilities/Localization/ScanMatchers/MbIcpScanMatcher.cs:269-292 | The rule's point lies on the closed segment. `landaMin < 0` gives q1 and `landaMin > 1` gives q2. A segment whose squared length (`distref`) is at least `MaxDistInter` gives the endpoint on the side of 0.5. A segment whose squared length is below `MaxDistInter`, with `landaMin` in [0, 1], gives exactly the point at `landaMin` between q1 and q2, and an interior point arises only there. A NaN `landaMin` gives no point when the squared length is below `MaxDistInter`, and q2 otherwise. |
| Trim.TruncToInt | MRLUtilities/Localization/ScanMatchers/MbIcpScanMatcher.cs:381 | The `(int)` cast truncates toward zero: the result keeps the sign and is within 1 below the magnitude. |
| Trim.TruncDiv | MRLUtilities/Localization/ScanMatchers/MbIcpScanMatcher.cs:381 | C# integer division truncates toward zero: the remainder has the dividend's sign and is smaller than the divisor in magnitude. |
| Trim.KeptCountIsFloor | MRLUtilities/Localization/ScanMatchers/MbIcpScanMatcher.cs:381 | For `F >= 0` the trim count `((int)(n*100*F))/100` equals the floor of n*F. |
| Trim.KeptCountBounds | MRLUtilities/Localization/ScanMatchers/MbIcpScanMatcher.cs:381 | For `F` in [0, 1] the trim count lies in [0, n]. |
| Trim.KeptCountWhole | MRLUtilities/Localization/ScanMatchers/MbIcpScanMatcher.cs:381 | `F = 1` keeps every correspondence. |
| Trim.KeptCountMonotone | MRLUtilities/Localization/ScanMatchers/MbIcpScanMatcher.cs:381 | The trim count never decreases as `F` grows. |
| Trim.KeptCountExamples | MRLUtilities/Localization/ScanMatchers/MbIcpScanMatcher.cs:16 | With the default `F = 0.95`, 10 correspondences keep 9. `F = 2` asks for 2 out of 1, which is more than there are. |
| Convergence.Misfit | MRLUtilities/Localization/ScanMatchers/MbIcpScanMatcher.cs:89-90 | The squared distance between a reference point and the moved current point is non-negative. |
| Convergence.Residual | MRLUtilities/Localization/ScanMatchers/MbIcpScanMatcher.cs:86-92 | The residual is non-negative and at least the misfit of the last correspondence. |
| Convergence.ResidualBoundsEachMisfit | MRLUtilities/Localization/ScanMatchers/MbIcpScanMatcher.cs:86-92 | Every correspondence's misfit is at most the residual, so a zero residual means every moved point meets its reference point. |
| Convergence.ResidualError | MRLUtilities/Localization/ScanMatchers/MbIcpScanMatcher.cs:84-92 | The accumulation loop computes exactly the residual of the trimmed list under the step. |
| Convergence.RatioTest | MRLUtilities/Localization/ScanMatchers/MbIcpScanMatcher.cs:94-99 | With a positive previous error, the ratio test holds exactly when the error changed by at most `Min_Error` times the previous error. With a zero previous error it fails, as the IEEE quotient does. |
| Convergence.SmallStep | MRLUtilities/Localization/ScanMatchers/MbIcpScanMatcher.cs:100-101 | The small-step test passes only for a positive tolerance, and it always passes for the null step. |
| Convergence.PassesWhenStill | MRLUtilities/Localization/ScanMatchers/MbIcpScanMatcher.cs:99-101 | An iteration that repeats a non-zero previous error, or that does not move, passes the exit test. |
| Convergence.TrailingPasses | MRLUtilities/Localization/ScanMatchers/MbIcpScanMatcher.cs:103-106 | `NumConverged` never exceeds the number of iterations. |
| Convergence.TrailingPassesStep | MRLUtilities/Localization/ScanMatchers/MbIcpScanMatcher.cs:99-106 | After one more iteration `NumConverged` is incremented when the iteration passes and reset to 0 when it does not. |
| Convergence.TrailingPassesMeaning | MRLUtilities/Localization/ScanMatchers/MbIcpScanMatcher.cs:103-106 | A counter value of k means the last k iterations passed and, unless k covers the whole run, the one before them failed. |
| Convergence.RecordedStep | MRLUtilities/Localization/ScanMatchers/MbIcpScanMatcher.cs:94-108 | Recording one more iteration, tested against the residual before it, keeps the record of the run consistent: each test is taken against the previous residual (`error_k1`). |
| Convergence.RunsBelowStep | MRLUtilities/Localization/ScanMatchers/MbIcpScanMatcher.cs:110-117 | If the counter stays at most `IterSmoothConv` after one more iteration, it stayed there after every iteration so far. |
| Convergence.RunsBelowPrefix | MRLUtilities/Localization/ScanMatchers/MbIcpScanMatcher.cs:110-121 | Dropping the last iteration keeps every earlier counter value at most `IterSmoothConv`. |
| Correspondence.CompactIndices | MRLUtilities/Localization/ScanMatchers/MbIcpScanMatcher.cs:156-166 | The filter keeps the first point and between 1 and n indices, each below n. |
| Correspondence.CompactIndicesIncreasing | MRLUtilities/Localization/ScanMatchers/MbIcpScanMatcher.cs:159-166 | The kept indices are strictly increasing, so the kept points form an in-order subsequence of the cloud. |
| Correspondence.CompactIndicesStep | MRLUtilities/Localization/ScanMatchers/MbIcpScanMatcher.cs:161-165 | Point i is kept exactly when its bearing is at least that of the last point kept. |
| Correspondence.CompactSorted | MRLUtilities/Localization/ScanMatchers/MbIcpScanMatcher.cs:159-166 | The kept points are in non-decreasing bearing order. |
| Correspondence.Compacted | MRLUtilities/Localization/ScanMatchers/MbIcpScanMatcher.cs:156-168 | The filtered cloud keeps the first point and has between 1 and n points. |
| Correspondence.CompactedSorted | MRLUtilities/Localization/ScanMatchers/MbIcpScanMatcher.cs:156-168 | The compacted cloud is sorted by bearing. |
| Correspondence.CompactDropsOnlyDisordered | MRLUtilities/Localization/ScanMatchers/MbIcpScanMatcher.cs:159-166 | Every dropped point has a bearing below that of some earlier kept point. |
| Correspondence.CompactKeepsSorted | MRLUtilities/Localization/ScanMatchers/MbIcpScanMatcher.cs:159-166 | On a bearing-sorted cloud the filter keeps every index. |
| Correspondence.CompactedOfSorted | MRLUtilities/Localization/ScanMatchers/MbIcpScanMatcher.cs:156-168 | A bearing-sorted cloud comes through the filter unchanged. |
| Correspondence.InPlaceKeep | MRLUtilities/Localization/ScanMatchers/MbIcpScanMatcher.cs:163-164 | Writing point i to slot cnt, with cnt <= i, extends the kept prefix and leaves every slot not yet read equal to the original. |
| Correspondence.FilterStart | MRLUtilities/Localization/ScanMatchers/MbIcpScanMatcher.cs:156 | Before the loop, `cnt = 1` and the first point is kept in place. |
| Correspondence.FilterKeep | MRLUtilities/Localization/ScanMatchers/MbIcpScanMatcher.cs:161-165 | Keeping point i preserves the filter's in-place invariant with cnt + 1. |
| Correspondence.FilterSkip | MRLUtilities/Localization/ScanMatchers/MbIcpScanMatcher.cs:161 | Skipping a point of smaller bearing preserves the in-place invariant. |
| Correspondence.FilterDone | MRLUtilities/Localization/ScanMatchers/MbIcpScanMatcher.cs:167 | At the end, cnt is the compacted cloud's length. The prefix is the compacted cloud and the rest of the array is as it was. |
| Correspondence.AdvanceL | MRLUtilities/Localization/ScanMatchers/MbIcpScanMatcher.cs:214-215 | The left edge never moves back and stays within the reference cloud. |
| Correspondence.AdvanceR | MRLUtilities/Localization/ScanMatchers/MbIcpScanMatcher.cs:216-217 | The right edge never moves back and stays within the reference cloud. |
| Correspondence.SkipIo | MRLUtilities/Localization/ScanMatchers/MbIcpScanMatcher.cs:182-185 | The first current point considered never moves back and stays within the current cloud. |
| Correspondence.InitialWindow | MRLUtilities/Localization/ScanMatchers/MbIcpScanMatcher.cs:175-200 | `Io < l2`, `L < l1` and `R < l1` for the initial window. |
| Correspondence.AdvanceLLeftOf | MRLUtilities/Localization/ScanMatchers/MbIcpScanMatcher.cs:214-215 | The left edge stops at the first reference point not left of `T - Bw`, or at the last point, and every point it passed lies left of the window. |
| Correspondence.AdvanceRStops | MRLUtilities/Localization/ScanMatchers/MbIcpScanMatcher.cs:216-217 | The right edge stops at the last point or before a point at or beyond `T + Bw`. |
| Correspondence.AdvanceWindow | MRLUtilities/Localization/ScanMatchers/MbIcpScanMatcher.cs:213-217 | With a bearing-sorted reference cloud and `Bw >= 0`, L exceeds R by at most one, and only when no reference bearing lies in [T - Bw, T + Bw). |
| Correspondence.InitialWindowLeftOf | MRLUtilities/Localization/ScanMatchers/MbIcpScanMatcher.cs:175-200 | Every reference point before the initial left edge lies left of the first considered point's window. |
| Correspondence.LandaNaNOnlyOnDegenerateSegment | MRLUtilities/Localization/ScanMatchers/MbIcpScanMatcher.cs:267 | With the preprocessed values, `landaMin` is NaN only on a segment whose end points coincide. |
| Correspondence.SegmentCandidate | MRLUtilities/Localization/ScanMatchers/MbIcpScanMatcher.cs:252-297 | A segment's candidate carries its metric distance from the current point, which is never negative. |
| Correspondence.Closer | MRLUtilities/Localization/ScanMatchers/MbIcpScanMatcher.cs:299-305 | The kept candidate is never farther than the best so far. It replaces the best exactly when it is strictly closer. |
| Correspondence.BestIsFirstMinimum | MRLUtilities/Localization/ScanMatchers/MbIcpScanMatcher.cs:247-306 | Two outcomes are possible. The kept candidate may have the least distance over segments L+1..R and be the first to reach it, because later ties lose to the strict `<`. Otherwise no candidate beats `double.MaxValue` and the start value stays. |
| Correspondence.AssociateOutcome | MRLUtilities/Localization/ScanMatchers/MbIcpScanMatcher.cs:222-330 | L > R gives the origin with distance `Br`. L == R gives a correlation exactly when the metric distance to reference point R is below `Br`, and then it pairs that point with that distance. L < R gives one exactly when the best segment candidate (`BestFrom`) is closer than `Br`, and then it pairs that candidate's point, which lies on one of the window's segments, with its distance. Any accepted pair has distance in [0, `Br`). |
| Correspondence.SearchFromCount | MRLUtilities/Localization/ScanMatchers/MbIcpScanMatcher.cs:206-331 | Each current point from `Io` on adds at most one correlation, so there are at most `l2 - Io`. |
| Correspondence.SearchFromDistances | MRLUtilities/Localization/ScanMatchers/MbIcpScanMatcher.cs:206-331 | Every correlation pairs some current point with either an accepted point at distance in [0, `Br`) or the origin at distance exactly `Br`, so no distance exceeds `Br`. |
| Correspondence.SearchFromFallbackOnlyInGaps | MRLUtilities/Localization/ScanMatchers/MbIcpScanMatcher.cs:206-331 | Over bearing-sorted clouds, the fallback appears only for current points whose angular window holds no reference bearing. |
| Correspondence.SearchFallbackOnlyInGaps | MRLUtilities/Localization/ScanMatchers/MbIcpScanMatcher.cs:321-330 | The whole search over sorted clouds yields at most `l2` correlations. Each is accepted below `Br`, or is the fallback of a current point with an empty window. |
| Correspondence.FallbackReachable | MRLUtilities/Localization/ScanMatchers/MbIcpScanMatcher.cs:321-330 | The "cannot happen" branch is reachable: sorted clouds whose window for a current point is empty emit the origin at distance `Br`. |
| Projection.ProjectSample | MRLUtilities/Localization/ScanMatchers/MbIcpScanMatcher.cs:548-560 | The projected point carries the scaled range and the `Atan2` bearing of its moved position. |
| Projection.ProjectSampleDistance | MRLUtilities/Localization/ScanMatchers/MbIcpScanMatcher.cs:553-556 | When cos and sin obey the Pythagorean identity, the projected point lies at the scaled range from the pose's position. |
| Projection.Projected | MRLUtilities/Localization/ScanMatchers/MbIcpScanMatcher.cs:546-564 | The cloud is no longer than the scan, and every point's range is below `MaxLaserRange`. |
| Projection.KeptIndices | MRLUtilities/Localization/ScanMatchers/MbIcpScanMatcher.cs:546-551 | The projected readings' indices are strictly increasing and within the scan. |
| Projection.KeptIndicesExact | MRLUtilities/Localization/ScanMatchers/MbIcpScanMatcher.cs:551 | A reading is projected exactly when its scaled range is below `MaxLaserRange` and it is not flagged. |
| Projection.ProjectedIsKeptReadings | MRLUtilities/Localization/ScanMatchers/MbIcpScanMatcher.cs:546-564 | The cloud has one point per kept reading, in scan order, each the projection of that reading. |
| Matcher.SearchedCloud | MRLUtilities/Localization/ScanMatchers/MbIcpScanMatcher.cs:155-168 | The cloud the search runs on is no longer than the current cloud and is non-empty when the current cloud is. With the filter on it is sorted by bearing. |
| Matcher.FilterPoint | MRLUtilities/Localization/ScanMatchers/MbIcpScanMatcher.cs:161-165 | One step of the in-place filter preserves its invariant: the prefix holds the kept points, and unread slots hold the original points. |
| Matcher.FilterByBearing | MRLUtilities/Localization/ScanMatchers/MbIcpScanMatcher.cs:156-168 | After the in-place filter, `c[..cnt]` is the compacted cloud and `c[cnt..]` is unchanged. |
| Matcher.AdvanceLeft | MRLUtilities/Localization/ScanMatchers/MbIcpScanMatcher.cs:214-215 | The loop ends at the left edge `AdvanceL` defines. |
| Matcher.AdvanceRight | MRLUtilities/Localization/ScanMatchers/MbIcpScanMatcher.cs:216-217 | The loop ends at the right edge `AdvanceR` defines. |
| Matcher.StartWindow | MRLUtilities/Localization/ScanMatchers/MbIcpScanMatcher.cs:175-200 | The three cases set up `Io`, `L` and `R` as `InitialWindow` defines. |
| Matcher.TrimmedKeepsLatest | MRLUtilities/Localization/ScanMatchers/MbIcpScanMatcher.cs:378-388 | For `F` in [0, 1] the trim succeeds and keeps exactly floor(n * F) correspondences: every one of the latest floor(n * F), and nothing else. |
| Matcher.StepAtOutcome | MRLUtilities/Localization/ScanMatchers/MbIcpScanMatcher.cs:63-92 | An iteration fails on an empty reference cloud. On non-empty clouds with `F` in [0, 1] the search and the trim succeed, and the iteration succeeds exactly when `getQmin` solves the trimmed system. It fails only on an empty cloud, `F` outside [0, 1] or an unsolvable system, and its residual is never negative. |
| Matcher.TrimmedSparse | MRLUtilities/Localization/ScanMatchers/MbIcpScanMatcher.cs:378-388 | For `F` in [0, 1], fewer correspondences than one over `F` are trimmed to none. |
| Matcher.StepAtFailsOnSparseSearch | MRLUtilities/Localization/ScanMatchers/MbIcpScanMatcher.cs:73-77 | When n correspondences are found and n * F < 1, the trim keeps none of them. A solver that rejects the empty system then makes the iteration fail. |
| Matcher.TraceStep | MRLUtilities/Localization/ScanMatchers/MbIcpScanMatcher.cs:56-121 | One more successful iteration from the last pose extends a run by that iteration's step, pose and residual. |
| Matcher.TraceComposes | MRLUtilities/Localization/ScanMatchers/MbIcpScanMatcher.cs:77-92 | In a run of the iterations every pose after the first is the previous pose composed with the step taken from it, and every residual is non-negative. |
| Matcher.Precompute | MRLUtilities/Localization/ScanMatchers/MbIcpScanMatcher.cs:569-588 | The six fresh arrays have the reference cloud's length. Entry i holds the deltas to point i + 1, their squares, the squared segment length and the cross product. The last entry stays 0. |
| Matcher.MbIcpScanMatcher.constructor | MRLUtilities/Localization/ScanMatchers/MbIcpScanMatcher.cs:11-33 | The tunables start at their declared defaults, and the previous error starts at 0. |
| Matcher.MbIcpScanMatcher.Params | MRLUtilities/Localization/ScanMatchers/MbIcpScanMatcher.cs:147-149 | `LMET2` is `LMET * LMET`, positive whenever `LMET` is non-zero. The other search tunables are read unchanged. |
| Matcher.MbIcpScanMatcher.Setting | MRLUtilities/Localization/ScanMatchers/MbIcpScanMatcher.cs:56-92 | The problem the iterations work on carries the given reference cloud and current scan, the fraction `F` and `MaxLaserRange`. It is well formed when the segment arrays fit the cloud and `LMET` is non-zero. |
| Matcher.MbIcpScanMatcher.ChangeMBParameterToUnitFactor | MRLUtilities/Localization/ScanMatchers/MbIcpScanMatcher.cs:124-130 | `MaxLaserRange`, `LMET`, `Br` and `MaxDistInter` are multiplied by the factor, compounding over calls. `F`, `Bw`, `Min_Error` and the rest are untouched (frame). |
| Matcher.MbIcpScanMatcher.ToPoints | MRLUtilities/Localization/ScanMatchers/MbIcpScanMatcher.cs:535-565 | The returned fresh array is the projected cloud: the kept readings, in scan order. |
| Matcher.MbIcpScanMatcher.PreProcessOnRef | MRLUtilities/Localization/ScanMatchers/MbIcpScanMatcher.cs:567-591 | The six precomputation arrays describe the reference cloud's segments, and `error_k1` is reset to `BIG_INITIAL_ERROR`. |
| Matcher.MbIcpScanMatcher.BestOnSegments | MRLUtilities/Localization/ScanMatchers/MbIcpScanMatcher.cs:247-306 | The loop over segments L+1..R ends with the best candidate `BestFrom` defines, which is the first minimum. |
| Matcher.MbIcpScanMatcher.AssociatePoint | MRLUtilities/Localization/ScanMatchers/MbIcpScanMatcher.cs:222-330 | One current point's contribution is the one `Associate` defines. |
| Matcher.MbIcpScanMatcher.AssociateNext | MRLUtilities/Localization/ScanMatchers/MbIcpScanMatcher.cs:206-331 | One round of the main loop moves the window to the current point. The search from that point (`from`, which is `SearchFrom` on every valid window) is the round's correlation, if any, followed by the search from the next point with the moved window. |
| Matcher.MbIcpScanMatcher.SearchLoop | MRLUtilities/Localization/ScanMatchers/MbIcpScanMatcher.cs:206-331 | The main loop from current point `Io` with the window at [L, R] produces exactly `SearchFrom` of those arguments: the correlations of the points in order, one at most per point. |
| Matcher.MbIcpScanMatcher.SearchAll | MRLUtilities/Localization/ScanMatchers/MbIcpScanMatcher.cs:175-331 | The window setup followed by the main loop produces exactly `Search` of the two clouds. |
| Matcher.MbIcpScanMatcher.CorrelatePointsMB | MRLUtilities/Localization/ScanMatchers/MbIcpScanMatcher.cs:132-376 | It fails, as the C# indexing does, exactly when either cloud is empty. The current array is compacted in place when the filter is on. On success the correlations are the search over the filtered cloud. |
| Matcher.MbIcpScanMatcher.GetFilteredCorrespondences | MRLUtilities/Localization/ScanMatchers/MbIcpScanMatcher.cs:378-388 | It fails exactly when the trim count exceeds the number of correspondences. Otherwise it returns that many, item i being `assoc[n-1-i]`. |
| Matcher.MbIcpScanMatcher.CorrelationsAt | MRLUtilities/Localization/ScanMatchers/MbIcpScanMatcher.cs:62-67 | The correspondences from pose q are `Found` for the matcher's state: the current scan projected at q and searched against the reference cloud. |
| Matcher.MbIcpScanMatcher.Iterate | MRLUtilities/Localization/ScanMatchers/MbIcpScanMatcher.cs:63-92 | One iteration is exactly `StepAt` for the matcher's state: the step `getQmin` computes for the trimmed correspondences found from q, the pose with the step composed in, and the residual of those correspondences under the step. It fails when the search or the trim fails, or when `getQmin` meets a singular system. |
| Matcher.MbIcpScanMatcher.Advance | MRLUtilities/Localization/ScanMatchers/MbIcpScanMatcher.cs:61-92 | An iteration is what `it` yields at q. It fails on an empty reference cloud. It succeeds on non-empty clouds with `F` in [0, 1] when the step from q is solvable (`solvable`, that is `Solvable`). Its residual is non-negative. |
| Matcher.MbIcpScanMatcher.IterationLoop | MRLUtilities/Localization/ScanMatchers/MbIcpScanMatcher.cs:56-121 | The loop follows `it` (`StepAt` for the matcher's state) from initQ: each pose is the one the previous iteration composed, and its step and residual are those `it` yields there. The run stops early only at a pose where the iteration fails. It fails at once on an empty reference cloud, and never on non-empty clouds with `F` in [0, 1] when every step is solvable. On success the estimate is the last pose. Each exit test is taken against the residual of the iteration before (`BIG_INITIAL_ERROR` for the first), and the error it ends with is the last residual. `converged` is reported only after more than `IterSmoothConv` consecutive passes, at the first such iteration, with a count below `MAX_ITERATIONS`. Otherwise the result reports `MAX_ITERATIONS` iterations, not converged. |
| Matcher.MbIcpScanMatcher.Iterations | MRLUtilities/Localization/ScanMatchers/MbIcpScanMatcher.cs:56-121 | The run follows `it` (`StepAt` for the matcher's state) from initQ: each pose is the one the previous iteration composed, and its step and residual are those `it` yields there. The run stops early only at a pose where the iteration fails. It fails at once on an empty reference cloud, and never on non-empty clouds with `F` in [0, 1] when every step is solvable. On success the estimate is the last pose. On success and on failure `error_k1` holds the last residual measured, or `BIG_INITIAL_ERROR` if none was. Each exit test is taken against the residual of the iteration before (`BIG_INITIAL_ERROR` for the first). `converged` is reported only after more than `IterSmoothConv` consecutive passes, at the first such iteration, with a count below `MAX_ITERATIONS`. Otherwise the result reports `MAX_ITERATIONS` iterations, not converged. The state the iterations read is unchanged. |
| Matcher.MbIcpScanMatcher.Match | MRLUtilities/Localization/ScanMatchers/MbIcpScanMatcher.cs:35-122 | The length tunables are rescaled by the reference scan's factor, and the reference cloud is scan1 projected at the origin with its segments precomputed. The run follows `StepAt` for that reference cloud from initQ, and on success the estimate is the last pose reached. It fails on an empty reference cloud. It succeeds on non-empty clouds with `F` in [0, 1] when the step from every pose is solvable (`Solvable`). `error_k1` ends as the last residual measured, or `BIG_INITIAL_ERROR` if none was. The exits are those of `Iterations`. |

## Left out

- `Math.Cos`, `Math.Sin` and `Math.Atan2` are uninterpreted functions passed in a `Trig` value. The Pythagorean identity is assumed only where a lemma states it as a precondition.
- `getQmin`, the least-squares step with its MathNet matrix inverse, is a function parameter of `Iterate`, `Iterations` and `Match`. It returns either the step or `SingularSystem`, for a normal-equation matrix the inverse rejects, and an iteration fails when it does. Which systems are singular is not derived: the matrix A is zero for an empty list, which the trim yields when n * F < 1 (at F = 0.95, for n of 0 or 1), and `StepAtFailsOnSparseSearch` states the consequence for a solver that rejects that system. The C# `getQmin` reads the static `LMET` as it stands at the call, which `Match` has just rescaled and which compounds across calls. Here the solver is fixed before the rescale, so its dependence on the current `LMET` is not modelled. `getQmin2` is unused and not modelled.
- `IcpScanMatcher.CompoundPoses` is not part of this model. Its class is outside the matcher, so pose composition is a function parameter.
- `Heap` is not part of this model. The correlations are a sequence in insertion order, and `assoc[k]` is read as the k-th inserted correlation. Under this reading the trim keeps the last pairs found in scan order, not the closest ones.
- Timing (`Environment.TickCount`, the duration in `MatchResult`) is wall-clock I/O and is dropped.
- Floating-point rounding, overflow and infinities are not modelled: doubles are exact reals. NaN is modelled only for `landaMin` on a zero-length segment. For the ratio test with a zero previous error, the NaN or infinite quotient is not represented; only the failed test is. Signed zeros are not modelled.
- Metric.LandaMin: a zero denominator gives NaN, where IEEE division gives an infinity for a non-zero numerator. With preprocessed segment arrays the two agree, because the denominator is then zero only on a zero-length segment, where the numerator is zero too (`LandaDenominatorZero`, `LandaNaNOnlyOnDegenerateSegment`).
- Trim.KeptCount: the cast of `n * 100 * F` does not model the unspecified C# result when the product exceeds the `int` range.
- Matcher.MbIcpScanMatcher.CorrelatePointsMB: requires `LMET != 0`. With `LMET = 0`, a reference or segment point at the origin makes a metric denominator zero, so distances involving that point can be NaN, and that case is not modelled.
- Matcher.MbIcpScanMatcher.CorrelationsAt: requires `LMET != 0`, for the same reason.
- Matcher.MbIcpScanMatcher.Advance: requires `LMET != 0`, for the same reason.
- Matcher.MbIcpScanMatcher.Iterate: requires `LMET != 0`, for the same reason. Success is guaranteed only for non-empty clouds, `F` in [0, 1] and a solvable step, so the other failure cases are stated one way only.
- Matcher.MbIcpScanMatcher.Iterations: requires `LMET != 0`. Its failure cases are characterised one way only, like those of `Iterate`.
- Matcher.MbIcpScanMatcher.IterationLoop: requires `LMET != 0`. Its failure cases are characterised one way only, like those of `Iterate`.
- Matcher.MbIcpScanMatcher.Match: requires `LMET * scan1.Factor != 0`, so that the rescaled `LMET` is non-zero. Its failure cases are characterised one way only.
- The `ErrorInM` early return of `Match` is not modelled: the `err` flag is never set, because the association-count check is commented out. `AsocError` is therefore never read.
- The commented-out brute-force search and the unused helpers `max` and `abs` are not modelled.
- The C# code reads the range, bearing and filter flag of a reading from three parallel arrays. Here they are merged into one `Sample` per reading.
- The C# tunables and precomputation arrays are static. Here they are fields of one matcher object, so sharing between instances is not modelled. State that persists across `Match` calls on one object is modelled, including the compounding rescale.
- An exception thrown by the C# code is a `Failure` result: `IndexOutOfRange` for an array index out of range, `SingularSystem` for the matrix inverse of `getQmin`.
