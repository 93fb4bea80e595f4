/**
 The driver in_smallest_orthogonalcircleC2 over Static_adaptatif_filter.

 The driver keeps a magnitude bound and an epsilon across calls (function-local
 statics in the header, the fields of FilterContext here).  A call
   1. re-adjusts when some operand's magnitude is strictly above the bound
      (the bound starts at the sentinel -1.0, so the first call always does);
   2. evaluates the expression over Restricted_double with the cached epsilon;
   3. when that comparison is unsafe, re-adjusts once more and retries
      (the goto re_adjust, taken at most once per call);
   4. when it is unsafe again, evaluates the expression exactly.
 Call is the specification of one call on a given calibration; Evaluate is
 the imperative driver, proved to follow it.
 */
module AdaptiveFilter {
  import opened Expression
  import opened StaticFilter

  /** The cached pair (SAF_bound, SAF_epsilon_0). */
  datatype Calibration = Calibration(bound: real, epsilon: real)

  /** A fresh context: the bound is the sentinel -1.0 and the static epsilon is zero-initialised. */
  function Uncalibrated(): Calibration {
    Calibration(-1.0, 0.0)
  }

  /** Bound and epsilon belong together: the epsilon is the one derived for the bound. */
  predicate Paired(fm: FloatModel, c: Calibration) {
    c.bound >= 0.0 && c.epsilon == DerivedEpsilon(fm, c.bound)
  }

  /** The states a context can be in. */
  predicate Reachable(fm: FloatModel, c: Calibration) {
    c == Uncalibrated() || Paired(fm, c)
  }

  /**
   The calibration the re-adjust block leaves behind: the bound of the
   current operands only, and its epsilon.
   */
  function Recalibrated(fm: FloatModel, o: Operands<real>): (c: Calibration)
    ensures Paired(fm, c)
    ensures !Exceeds(o, c.bound)
    ensures forall b :: b >= 0.0 && !Exceeds(o, b) ==> c.bound <= b
  {
    forall b | b >= 0.0 && !Exceeds(o, b) ensures MaxAbs(o) <= b {
      MaxAbsIsLeast(o, b);
    }
    Calibration(MaxAbs(o), DerivedEpsilon(fm, MaxAbs(o)))
  }

  /** How a call ended. */
  datatype Path =
    | FastFirst(recalibratedOnEntry: bool)  // the first fast evaluation gave a sign
    | FastAfterReAdjust                     // it was unsafe; after the forced re-adjust the retry gave a sign
    | ExactFallback                         // unsafe twice; the exact predicate decided

  /** What one call leaves behind and returns. */
  datatype CallResult = CallResult(state: Calibration, side: OrientedSide, path: Path)

  /**
   One call of the driver on calibration c.  A re-adjust on entry and a
   forced re-adjust produce the same calibration, so the retry after an entry
   re-adjust evaluates exactly what the first attempt did.
   */
  function Call(fm: FloatModel, c: Calibration, o: Operands<real>): (r: CallResult)
    ensures !Exceeds(o, r.state.bound)
    ensures r.path == FastFirst(false) ==> r.state == c
    ensures r.path != FastFirst(false) ==> r.state == Recalibrated(fm, o)
    ensures r.path.ExactFallback? <==> SafFast(fm, o, r.state.epsilon).Uncertain?
    ensures r.path.ExactFallback? ==> r.side == ExactSide(o)
    ensures !r.path.ExactFallback? ==> SafFast(fm, o, r.state.epsilon) == Definite(r.side)
  {
    var entry := Exceeds(o, c.bound);
    var first := if entry then Recalibrated(fm, o) else c;
    match SafFast(fm, o, first.epsilon)
    case Definite(side) => CallResult(first, side, FastFirst(entry))
    case Uncertain =>
      var second := Recalibrated(fm, o);
      match SafFast(fm, o, second.epsilon)
      case Definite(side) => CallResult(second, side, FastAfterReAdjust)
      case Uncertain => CallResult(second, ExactSide(o), ExactFallback)
  }

  /** A call keeps bound and epsilon paired, whatever path it takes. */
  lemma CallPreservesReachable(fm: FloatModel, c: Calibration, o: Operands<real>)
    requires Reachable(fm, c)
    ensures Paired(fm, Call(fm, c, o).state)
  {
    var r := Call(fm, c, o);
    if r.path == FastFirst(false) {
      if c == Uncalibrated() {
        SentinelAlwaysExceeded(o, c.bound);
      }
    }
  }

  /** The first call on a fresh context always re-adjusts on entry. */
  lemma FreshContextRecalibrates(fm: FloatModel, o: Operands<real>)
    ensures Exceeds(o, Uncalibrated().bound)
    ensures Call(fm, Uncalibrated(), o).path == FastFirst(true) || Call(fm, Uncalibrated(), o).path == ExactFallback
    ensures Call(fm, Uncalibrated(), o).state == Recalibrated(fm, o)
  {
    SentinelAlwaysExceeded(o, Uncalibrated().bound);
  }

  /** The forced retry is futile after a re-adjust on entry: it cannot turn unsafe into a sign. */
  lemma RetryAfterEntryReAdjustIsFutile(fm: FloatModel, c: Calibration, o: Operands<real>)
    requires Exceeds(o, c.bound)
    ensures Call(fm, c, o).path != FastAfterReAdjust
  {
  }

  /** A call whose entry test passes and whose first attempt gives a sign keeps the old calibration. */
  lemma CoveredDefiniteKeepsCalibration(fm: FloatModel, c: Calibration, o: Operands<real>)
    requires !Exceeds(o, c.bound) && SafFast(fm, o, c.epsilon).Definite?
    ensures Call(fm, c, o) == CallResult(c, SafFast(fm, o, c.epsilon).side, FastFirst(false))
  {
  }

  /**
   The result is the exact side: on the fallback path by construction, on
   the fast paths because of the soundness assumption on the float model.
   */
  lemma CallIsExact(fm: FloatModel, c: Calibration, o: Operands<real>)
    requires Certified(fm) && Reachable(fm, c)
    ensures Call(fm, c, o).side == ExactSide(o)
  {
    var r := Call(fm, c, o);
    CallPreservesReachable(fm, c, o);
    if !r.path.ExactFallback? {
      FastDefiniteIsExact(fm, o, r.state.bound);
    }
  }

  /**
   Under the assumption, a call on operands whose exact value is zero always
   ends in the exact fallback and answers the boundary side.
   */
  lemma ExactZeroFallsBack(fm: FloatModel, c: Calibration, o: Operands<real>)
    requires Certified(fm) && Reachable(fm, c)
    requires ExactValue(o) == 0.0
    ensures Call(fm, c, o).path == ExactFallback
    ensures Call(fm, c, o).side == OnOrientedBoundary
  {
    var r := Call(fm, c, o);
    CallPreservesReachable(fm, c, o);
    FastUncertainOnZero(fm, o, r.state.bound);
  }

  /** If t coincides with q the call answers the boundary side, through the exact fallback. */
  lemma CoincidentTGivesBoundary(fm: FloatModel, c: Calibration, o: Operands<real>)
    requires Certified(fm) && Reachable(fm, c)
    requires o.tx == o.qx && o.ty == o.qy && o.tw == o.qw
    ensures Call(fm, c, o).side == OnOrientedBoundary
    ensures Call(fm, c, o).path == ExactFallback
  {
    CoincidentTIsOnBoundary(o);
    ExactZeroFallsBack(fm, c, o);
  }

  /** If p and q are at the same place the call answers the boundary side, through the exact fallback. */
  lemma CoincidentPGivesBoundary(fm: FloatModel, c: Calibration, o: Operands<real>)
    requires Certified(fm) && Reachable(fm, c)
    requires o.px == o.qx && o.py == o.qy
    ensures Call(fm, c, o).side == OnOrientedBoundary
    ensures Call(fm, c, o).path == ExactFallback
  {
    CoincidentPIsOnBoundary(o);
    ExactZeroFallsBack(fm, c, o);
  }

  /**
   A degenerate input with t different from q: p = (0, 0, 0), q = (2, 0, 0),
   t = (1, 1, 0).  Its exact value is zero, so the call falls back to exact
   arithmetic and answers the boundary side.
   */
  lemma DegenerateExampleGivesBoundary(fm: FloatModel, c: Calibration)
    requires Certified(fm) && Reachable(fm, c)
    ensures var o := Operands(0.0, 0.0, 0.0, 2.0, 0.0, 0.0, 1.0, 1.0, 0.0);
            Call(fm, c, o).side == OnOrientedBoundary && Call(fm, c, o).path == ExactFallback
  {
    var o := Operands(0.0, 0.0, 0.0, 2.0, 0.0, 0.0, 1.0, 1.0, 0.0);
    ExactValueIsPolynomial(o);
    ExactZeroFallsBack(fm, c, o);
  }

  /**
   Repeating a call with the same operands changes nothing and gives the same
   side; it never re-adjusts on entry, and it ends in the exact fallback
   exactly when the first call did.
   */
  lemma CallTwiceIsCallOnce(fm: FloatModel, c: Calibration, o: Operands<real>)
    ensures var r1 := Call(fm, c, o);
            var r2 := Call(fm, r1.state, o);
            && r2.state == r1.state
            && r2.side == r1.side
            && r2.path == (if r1.path.ExactFallback? then ExactFallback else FastFirst(false))
  {
    var r1 := Call(fm, c, o);
    if !r1.path.ExactFallback? {
      CoveredDefiniteKeepsCalibration(fm, r1.state, o);
    }
  }

  /**
   The bound is not monotone: with exact arithmetic, a call on operands that
   are all zero and a calibration with bound 1.0 whose epsilon makes the
   first attempt unsafe re-adjusts the bound down to 0.0.
   */
  lemma BoundMayShrink()
    ensures var c := Calibration(1.0, 0.0);
            Paired(ExactFloatModel(), c) && Call(ExactFloatModel(), c, Uniform(0.0)).state.bound < c.bound
  {
    var fm, c, o := ExactFloatModel(), Calibration(1.0, 0.0), Uniform(0.0);
    assert !Exceeds(o, c.bound);
    assert Expr(fm.rounded, o) == 0.0;
    assert SafFast(fm, o, c.epsilon) == Uncertain;
    assert MaxAbs(o) == 0.0;
  }

  /**
   The persistent state of the driver: the two statics SAF_bound and
   SAF_epsilon_0, and the float model the predicate is compiled against.
   */
  class FilterContext {
    const model: FloatModel
    var bound: real
    var epsilon: real

    function State(): Calibration
      reads this
    {
      Calibration(bound, epsilon)
    }

    /** Bound and epsilon are either still the initial pair or paired. */
    predicate Valid()
      reads this
    {
      Reachable(model, State())
    }

    /** A context before its first call: SAF_bound = -1.0, SAF_epsilon_0 zero-initialised. */
    constructor(model: FloatModel)
      ensures this.model == model
      ensures State() == Uncalibrated()
      ensures Valid()
    {
      this.model := model;
      bound := -1.0;
      epsilon := 0.0;
    }

    /**
     The re_adjust block: nine successive maxima starting from 0.0, then the
     epsilon written by the error-bound overload on nine copies of
     Static_filter_error(bound).  The previous bound is discarded.
     */
    method ReAdjust(o: Operands<real>)
      modifies this
      ensures State() == Recalibrated(model, o)
      ensures Valid()
    {
      bound := Max(0.0, Abs(o.px));
      bound := Max(bound, Abs(o.py));
      bound := Max(bound, Abs(o.pw));
      bound := Max(bound, Abs(o.qx));
      bound := Max(bound, Abs(o.qy));
      bound := Max(bound, Abs(o.qw));
      bound := Max(bound, Abs(o.tx));
      bound := Max(bound, Abs(o.ty));
      bound := Max(bound, Abs(o.tw));
      var seed := Seed(bound);
      epsilon := SafErrorBound(model, Operands(seed, seed, seed, seed, seed, seed, seed, seed, seed));
    }

    /**
     One call of in_smallest_orthogonalcircleC2.  The goto back to re_adjust
     is the loop; the re_adjusted flag bounds it to one forced re-adjust.
     */
    method Evaluate(o: Operands<real>) returns (side: OrientedSide, ghost path: Path)
      requires Valid()
      modifies this
      ensures Valid() && Paired(model, State())
      ensures var r := Call(model, old(State()), o);
              State() == r.state && side == r.side && path == r.path
      ensures Certified(model) ==> side == ExactSide(o)
    {
      ghost var start := State();
      CallIsExactWhenCertified(model, start, o);
      CallPreservesReachable(model, start, o);
      var reAdjusted := false;
      var entry := Exceeds(o, bound);
      if entry {
        ReAdjust(o);
      }
      ghost var first := State();
      while true
        invariant Valid()
        invariant first == (if entry then Recalibrated(model, o) else start)
        invariant !reAdjusted ==> State() == first
        invariant reAdjusted ==> State() == Recalibrated(model, o) && SafFast(model, o, first.epsilon).Uncertain?
        decreases if reAdjusted then 0 else 1
      {
        var fast := SafFast(model, o, epsilon);
        if fast.Definite? {
          side := fast.side;
          path := if reAdjusted then FastAfterReAdjust else FastFirst(entry);
          return;
        }
        if !reAdjusted {
          reAdjusted := true;
          ReAdjust(o);
        } else {
          side := ExactSide(o);
          path := ExactFallback;
          return;
        }
      }
    }
  }

  /** The correctness of Call stated as an implication, so that a caller need not establish Certified first. */
  lemma CallIsExactWhenCertified(fm: FloatModel, c: Calibration, o: Operands<real>)
    requires Reachable(fm, c)
    ensures Certified(fm) ==> Call(fm, c, o).side == ExactSide(o)
  {
    if Certified(fm) {
      CallIsExact(fm, c, o);
    }
  }
}
