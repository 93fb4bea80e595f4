# Static-adaptive filtered `in_smallest_orthogonalcircleC2`

This project is a Dafny model of CGAL's static-adaptive filtered predicate
`in_smallest_orthogonalcircleC2`, with proofs about the model. The predicate
takes three weighted points p, q and t (nine numbers) and returns an
`Oriented_side`. It tells on which side of the smallest circle orthogonal to
p and q the weighted point t lies. The answer is the sign of

    (dtx² + dty² − tw + qw)·dpz − (dpz − pw + qw)·(dpx·dtx + dpy·dty)

where dpx = px − qx, dpy = py − qy, dtx = tx − qx, dty = ty − qy and
dpz = dpx² + dpy².

The filter evaluates this sign in three ways:

- **Error bound.** The expression is evaluated over `Static_filter_error` on
  nine copies of a magnitude bound. This derives an epsilon.
- **Fast path.** The expression is evaluated in doubles (`Restricted_double`).
  sign_SAF is taken to answer only when the value is further from zero than
  the epsilon, and otherwise to throw `unsafe_comparison`.
- **Exact.** The expression is evaluated exactly. This is the fallback.

The driver caches the bound and the epsilon across calls. A call does the
following:

1. It re-adjusts both when an operand's magnitude is strictly above the bound.
2. It tries the fast path.
3. If the fast path is unsafe, it re-adjusts once more (the `goto re_adjust`)
   and retries.
4. If the retry is unsafe too, it falls back to the exact predicate.

The modules are:

- `expression.dfy` (`Expression`): the predicate's expression, written once
  over a record of the number type's operations (`Arith`). It is instantiated
  with exact reals, integers, rounded doubles and error tracking.
- `orthogonal_circle.dfy` (`OrthogonalCircle`): the geometry behind the
  expression, as an independent reference. The exact value is |p − q|² times
  the power product of t with the smallest orthogonal circle of p and q.
- `static_filter.dfy` (`StaticFilter`): the magnitude test, the bound
  computation, the two `_SAF` overloads, and sign_SAF. It also contains the
  soundness assumption `Certified`; with the assumed sign_SAF behaviour
  (`SignSaf`) it is what the fast path rests on.
- `adaptive_filter.dfy` (`AdaptiveFilter`): two views of the driver.
  - The value-level specification `Call`: one call on a given calibration.
  - The class `FilterContext`, whose fields `bound` and `epsilon` are the two
    statics. Its method `Evaluate` is the driver, with the retry as a loop
    that is bounded by the `re_adjusted` flag. `Evaluate` is proved to follow
    `Call`.

The source paths below are relative to the repository root. Line numbers
refer to
`Packages/Interval_arithmetic/include/CGAL/Static_adaptatif_filter/predicates/in_smallest_orthogonalcircle_ftC2.h`.

## Model

| member | source | states |
|---|---|---|
| Expression.Expr | Packages/Interval_arithmetic/include/CGAL/Static_adaptatif_filter/predicates/in_smallest_orthogonalcircle_ftC2.h:45-53 | definition, no contract: the expression of the error-bound overload, written once over the number type's operations grouped as C++ parses them; the fast overload at lines 72-80 is the same tree |
| Expression.ExactValueIsPolynomial | Packages/Interval_arithmetic/include/CGAL/Static_adaptatif_filter/predicates/in_smallest_orthogonalcircle_ftC2.h:45-53 | the generic expression over exact reals is the header's polynomial in the nine coordinates |
| Expression.ExpressionCommutes | Packages/Interval_arithmetic/include/CGAL/Static_adaptatif_filter/predicates/in_smallest_orthogonalcircle_ftC2.h:72-80 | one expression tree for every number type: for a map that preserves the four operations, mapping the operands and then evaluating equals evaluating and then mapping the result |
| Expression.IntAndRealExactAgree | Packages/Interval_arithmetic/include/CGAL/Static_adaptatif_filter/predicates/in_smallest_orthogonalcircle_ftC2.h:162-171 | the exact predicate over integers and over reals gives the same value, hence the same side |
| Expression.SideOf | Packages/Interval_arithmetic/include/CGAL/Static_adaptatif_filter/predicates/in_smallest_orthogonalcircle_ftC2.h:162-171 | definition, no contract: `Oriented_side(sign(x))`, negative, boundary or positive as x is below, at or above zero |
| Expression.ExactSide | Packages/Interval_arithmetic/include/CGAL/Static_adaptatif_filter/predicates/in_smallest_orthogonalcircle_ftC2.h:162-171 | definition, no contract: what the exact fallback returns, the sign of the expression over exact reals |
| Expression.CoincidentTIsOnBoundary | Packages/Interval_arithmetic/include/CGAL/Static_adaptatif_filter/predicates/in_smallest_orthogonalcircle_ftC2.h:45-53 | when t has q's coordinates and weight, the exact value is 0 and the side is the boundary |
| Expression.CoincidentPIsOnBoundary | Packages/Interval_arithmetic/include/CGAL/Static_adaptatif_filter/predicates/in_smallest_orthogonalcircle_ftC2.h:45-49 | when p and q are at the same place, dpz is 0 and the exact value is 0, whatever the weights |
| OrthogonalCircle.SmallestOrthogonalCircle | Packages/Interval_arithmetic/include/CGAL/Static_adaptatif_filter/predicates/in_smallest_orthogonalcircle_ftC2.h:49-52 | for p and q apart, the circle centred on the line pq at ratio (dpz − pw + qw)/(2·dpz) from q is orthogonal to both p and q |
| OrthogonalCircle.PowerWithSmallest | Packages/Interval_arithmetic/include/CGAL/Static_adaptatif_filter/predicates/in_smallest_orthogonalcircle_ftC2.h:45-52 | in coordinates relative to q, the power product of t with that circle is dtx² + dty² − 2k(dtx·dpx + dty·dpy) − tw + qw |
| OrthogonalCircle.ExpressionIsScaledPowerProduct | Packages/Interval_arithmetic/include/CGAL/Static_adaptatif_filter/predicates/in_smallest_orthogonalcircle_ftC2.h:51-52 | the exact value equals dpz times the power product of t with the smallest orthogonal circle of p and q |
| OrthogonalCircle.SideOfSmallestOrthogonalCircle | Packages/Interval_arithmetic/include/CGAL/Static_adaptatif_filter/predicates/in_smallest_orthogonalcircle_ftC2.h:51-53 | for p and q apart, the exact side is the sign of that power product: positive means outside (ON_POSITIVE_SIDE) |
| StaticFilter.Abs | Packages/Interval_arithmetic/include/CGAL/Static_adaptatif_filter/predicates/in_smallest_orthogonalcircle_ftC2.h:101-109 | `fabs`, exact on doubles: the result is non-negative and is x or -x |
| StaticFilter.Max | Packages/Interval_arithmetic/include/CGAL/Static_adaptatif_filter/predicates/in_smallest_orthogonalcircle_ftC2.h:113-121 | `std::max`: the result is at least both arguments and is one of them |
| StaticFilter.Exceeds | Packages/Interval_arithmetic/include/CGAL/Static_adaptatif_filter/predicates/in_smallest_orthogonalcircle_ftC2.h:101-109 | definition, no contract: the nine-way strict entry test |
| StaticFilter.ExceedsIffAboveMaxAbs | Packages/Interval_arithmetic/include/CGAL/Static_adaptatif_filter/predicates/in_smallest_orthogonalcircle_ftC2.h:101-121 | the entry test fires if and only if the bound a re-adjust would compute is strictly above the cached bound; so an operand equal to the bound does not fire it and a negative bound always does |
| StaticFilter.SentinelAlwaysExceeded | Packages/Interval_arithmetic/include/CGAL/Static_adaptatif_filter/predicates/in_smallest_orthogonalcircle_ftC2.h:97-109 | every set of operands fails a negative bound such as the sentinel -1.0 |
| StaticFilter.MaxAbs | Packages/Interval_arithmetic/include/CGAL/Static_adaptatif_filter/predicates/in_smallest_orthogonalcircle_ftC2.h:113-121 | the re-adjusted bound is non-negative, no operand exceeds it, and it is 0 or one of the nine magnitudes |
| StaticFilter.MaxAbsIsLeast | Packages/Interval_arithmetic/include/CGAL/Static_adaptatif_filter/predicates/in_smallest_orthogonalcircle_ftC2.h:113-121 | every non-negative bound that no operand exceeds is at least the re-adjusted bound |
| StaticFilter.SignSaf | Packages/Interval_arithmetic/include/CGAL/Static_adaptatif_filter/predicates/in_smallest_orthogonalcircle_ftC2.h:78-80 | definition, no contract: the assumed sign_SAF, a sign when the absolute value exceeds epsilon, otherwise unsafe |
| StaticFilter.SignSafSound | Packages/Interval_arithmetic/include/CGAL/Static_adaptatif_filter/predicates/in_smallest_orthogonalcircle_ftC2.h:78-80 | when the computed value is within epsilon of the exact value, a definite answer is the sign of the exact value |
| StaticFilter.SafErrorBound | Packages/Interval_arithmetic/include/CGAL/Static_adaptatif_filter/predicates/in_smallest_orthogonalcircle_ftC2.h:29-54 | definition, no contract: the epsilon the error-bound overload writes to epsilon_0, the error component of the expression over Static_filter_error |
| StaticFilter.SafFast | Packages/Interval_arithmetic/include/CGAL/Static_adaptatif_filter/predicates/in_smallest_orthogonalcircle_ftC2.h:56-81 | definition, no contract: the fast overload, sign_SAF of the expression in rounded arithmetic |
| StaticFilter.DerivedEpsilon | Packages/Interval_arithmetic/include/CGAL/Static_adaptatif_filter/predicates/in_smallest_orthogonalcircle_ftC2.h:125-135 | definition, no contract: the error-bound overload on nine copies of Static_filter_error(bound) |
| StaticFilter.Certified | Packages/Interval_arithmetic/include/CGAL/Static_adaptatif_filter/predicates/in_smallest_orthogonalcircle_ftC2.h:140-153 | the soundness assumption, not proved: for operands within a non-negative bound, rounded evaluation is within that bound's derived epsilon of the exact value |
| StaticFilter.DefiniteIsNeverBoundary | Packages/Interval_arithmetic/include/CGAL/Static_adaptatif_filter/predicates/in_smallest_orthogonalcircle_ftC2.h:78-80 | with a non-negative epsilon, the fast path never answers the boundary side |
| StaticFilter.CertifiedEpsilonNonNegative | Packages/Interval_arithmetic/include/CGAL/Static_adaptatif_filter/predicates/in_smallest_orthogonalcircle_ftC2.h:125-135 | under the soundness assumption, the epsilon derived for a non-negative bound is non-negative |
| StaticFilter.FastDefiniteIsExact | Packages/Interval_arithmetic/include/CGAL/Static_adaptatif_filter/predicates/in_smallest_orthogonalcircle_ftC2.h:140-153 | under the soundness assumption, a sign given by the fast overload, with the epsilon of a bound covering the operands, is the exact side |
| StaticFilter.FastUncertainOnZero | Packages/Interval_arithmetic/include/CGAL/Static_adaptatif_filter/predicates/in_smallest_orthogonalcircle_ftC2.h:140-160 | under the soundness assumption, when the exact value is 0 the fast overload always reports an unsafe comparison |
| StaticFilter.ExactFloatModel | Packages/Interval_arithmetic/include/CGAL/Static_adaptatif_filter/predicates/in_smallest_orthogonalcircle_ftC2.h:125-135 | with arithmetic that does not round, every derived epsilon is 0 |
| StaticFilter.ExactFloatModelIsCertified | Packages/Interval_arithmetic/include/CGAL/Static_adaptatif_filter/predicates/in_smallest_orthogonalcircle_ftC2.h:140-153 | the soundness assumption can be met: the model without rounding satisfies it |
| AdaptiveFilter.Recalibrated | Packages/Interval_arithmetic/include/CGAL/Static_adaptatif_filter/predicates/in_smallest_orthogonalcircle_ftC2.h:111-135 | after a re-adjust, bound and epsilon are paired, the bound covers every operand, and it is the least such non-negative bound |
| AdaptiveFilter.Call | Packages/Interval_arithmetic/include/CGAL/Static_adaptatif_filter/predicates/in_smallest_orthogonalcircle_ftC2.h:96-173 | after any call every operand is within the bound. Only a first fast sign without an entry re-adjust keeps the old calibration; every other path leaves the re-adjusted one. The exact fallback happens if and only if the final epsilon leaves the fast path unsafe, and it returns the exact side. Otherwise the side is the fast sign under the final epsilon |
| AdaptiveFilter.CallPreservesReachable | Packages/Interval_arithmetic/include/CGAL/Static_adaptatif_filter/predicates/in_smallest_orthogonalcircle_ftC2.h:123-138 | starting fresh or paired, a call always leaves bound and epsilon paired |
| AdaptiveFilter.FreshContextRecalibrates | Packages/Interval_arithmetic/include/CGAL/Static_adaptatif_filter/predicates/in_smallest_orthogonalcircle_ftC2.h:97-110 | on a fresh context the sentinel fails the entry test for every operand set, so the first call re-adjusts on entry (it ends on the first fast attempt or in the exact fallback, never after a forced re-adjust) and leaves the re-adjusted calibration |
| AdaptiveFilter.RetryAfterEntryReAdjustIsFutile | Packages/Interval_arithmetic/include/CGAL/Static_adaptatif_filter/predicates/in_smallest_orthogonalcircle_ftC2.h:154-160 | after a re-adjust on entry, the forced retry can never produce a sign |
| AdaptiveFilter.CoveredDefiniteKeepsCalibration | Packages/Interval_arithmetic/include/CGAL/Static_adaptatif_filter/predicates/in_smallest_orthogonalcircle_ftC2.h:140-153 | operands within the bound, with a fast sign, return that sign and change nothing |
| AdaptiveFilter.CallIsExact | Packages/Interval_arithmetic/include/CGAL/Static_adaptatif_filter/predicates/in_smallest_orthogonalcircle_ftC2.h:140-171 | under the soundness assumption, the returned side always equals the exact side |
| AdaptiveFilter.CallIsExactWhenCertified | Packages/Interval_arithmetic/include/CGAL/Static_adaptatif_filter/predicates/in_smallest_orthogonalcircle_ftC2.h:140-171 | the same, stated as an implication from the soundness assumption for any reachable calibration |
| AdaptiveFilter.ExactZeroFallsBack | Packages/Interval_arithmetic/include/CGAL/Static_adaptatif_filter/predicates/in_smallest_orthogonalcircle_ftC2.h:140-171 | under the soundness assumption, operands whose exact value is 0 always end in the exact fallback with the boundary side |
| AdaptiveFilter.CoincidentTGivesBoundary | Packages/Interval_arithmetic/include/CGAL/Static_adaptatif_filter/predicates/in_smallest_orthogonalcircle_ftC2.h:154-171 | under the soundness assumption, when t coincides with q the call always ends in the exact fallback and returns the boundary side |
| AdaptiveFilter.CoincidentPGivesBoundary | Packages/Interval_arithmetic/include/CGAL/Static_adaptatif_filter/predicates/in_smallest_orthogonalcircle_ftC2.h:154-171 | under the soundness assumption, when p and q are at the same place the call ends in the exact fallback with the boundary side |
| AdaptiveFilter.DegenerateExampleGivesBoundary | Packages/Interval_arithmetic/include/CGAL/Static_adaptatif_filter/predicates/in_smallest_orthogonalcircle_ftC2.h:154-171 | under the soundness assumption, p = (0,0,0), q = (2,0,0), t = (1,1,0), with t not at q, ends in the exact fallback with the boundary side |
| AdaptiveFilter.CallTwiceIsCallOnce | Packages/Interval_arithmetic/include/CGAL/Static_adaptatif_filter/predicates/in_smallest_orthogonalcircle_ftC2.h:97-98 | a second call with the same operands keeps the state and the side. It never re-adjusts on entry, and it ends in the exact fallback exactly when the first call did |
| AdaptiveFilter.BoundMayShrink | Packages/Interval_arithmetic/include/CGAL/Static_adaptatif_filter/predicates/in_smallest_orthogonalcircle_ftC2.h:113 | the bound is not monotone: on a forced re-adjust it can drop, here from 1.0 to 0.0, starting from a calibration whose bound and epsilon are paired |
| AdaptiveFilter.FilterContext.constructor | Packages/Interval_arithmetic/include/CGAL/Static_adaptatif_filter/predicates/in_smallest_orthogonalcircle_ftC2.h:97-98 | a fresh context holds the sentinel bound -1.0 and the zero-initialised epsilon |
| AdaptiveFilter.FilterContext.ReAdjust | Packages/Interval_arithmetic/include/CGAL/Static_adaptatif_filter/predicates/in_smallest_orthogonalcircle_ftC2.h:111-135 | the nine maxima and the epsilon written by the error-bound overload leave exactly the re-adjusted calibration of the current operands, whatever the old state was |
| AdaptiveFilter.FilterContext.Evaluate | Packages/Interval_arithmetic/include/CGAL/Static_adaptatif_filter/predicates/in_smallest_orthogonalcircle_ftC2.h:83-173 | the driver terminates with at most one forced re-adjust. It leaves the state, side and path that Call specifies, keeps bound and epsilon paired, and under the soundness assumption returns the exact side |

## Behaviour worth knowing

These statements follow the code; the last one also rests on the assumed
sign_SAF (`SignSaf`) and on `Certified`. They differ from a natural description of
static filters.

- **The bound can shrink.** A re-adjust starts again from 0.0 with the current
  operands, so it can lower the bound. This happens on the forced retry after
  an unsafe fast comparison on small operands (`BoundMayShrink`).
- **Epsilon is recomputed on every re-adjust**, not only when the bound
  changes. The forced re-adjust recomputes the same pair when the entry test
  already re-adjusted (`RetryAfterEntryReAdjustIsFutile`).
- **A repeated call can fall back to exact arithmetic.** A second call with
  the same operands uses the exact predicate again exactly when the first call
  did (`CallTwiceIsCallOnce`).
- **Exact zeros always fall back.** When the exact value is zero, a sound fast
  path can never answer, so those inputs always pay for the exact predicate
  (`FastUncertainOnZero`, `ExactZeroFallsBack`).

## Left out

- The IEEE behaviour of `Restricted_double` and `Static_filter_error`: their
  definitions are not part of this model. Their operations are the
  `FloatModel` parameter.
- Whether double rounding really satisfies the soundness assumption
  `Certified` is not proved. The fast-path correctness lemmas assume it;
  the header's own comment at line 124 doubts it in general.
- The definition of `sign_SAF` is not part of this model. Over
  `Restricted_double` it is taken to answer exactly when the absolute value
  exceeds epsilon (`SignSaf`). Over `Static_filter_error` only the epsilon it
  writes is modelled. The side it returns there is discarded by the driver
  (line 125) and is not modelled.
- `Static_filter_error(d)` is a magnitude bound with zero error (`Seed`). Any
  further internal fields of that type are not modelled.
- Doubles and the exact number type are both Dafny `real`. The operand
  values are taken to be representable doubles, which is not enforced.
  `exact()` is the same value, read exactly. The exact number type's own
  implementation and memoisation are not modelled.
- The `unsafe_comparison` exception is the `Uncertain` outcome. The
  `goto re_adjust` is a loop bounded by the `re_adjusted` flag.
- Thread safety of the two function-local statics: the model has one
  context object per predicate, owned by its caller.
- OrthogonalCircle.SmallestOrthogonalCircle: the condition "p and q apart" is
  stated as a non-zero squared distance, not as distinct points. Proving that
  distinct points have a non-zero squared distance was out of reach for the
  solver's non-linear real arithmetic. That the circle is the smallest of the
  circles orthogonal to p and q is stated in its name but not proved.
- `Polyhedron/demo/Polyhedron/Plugins/Point_set/Point_set_to_mesh_distance_plugin.cpp`
  is not part of this model. It is GUI code, parallel code and foreign
  closest-point queries, unrelated to the predicate.
