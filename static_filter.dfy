/**
 The two floating-point instantiations of the predicate and the magnitude
 test of the driver.

 in_smallest_orthogonalcircleC2_SAF exists twice in the header: once over
 Static_filter_error, a number type that propagates a bound on the magnitude
 and on the rounding error of every intermediate value, and once over
 Restricted_double, plain doubles whose final sign test (sign_SAF) compares
 against an epsilon and gives up when the value is too close to zero.  The
 definitions of those number types are not part of this model: their
 operations are a parameter (FloatModel), and what the driver relies on is the
 explicit soundness assumption Certified.
 */
module StaticFilter {
  import opened Expression

  /** fabs, which is exact on doubles. */
  function Abs(x: real): (r: real)
    ensures r >= 0.0
    ensures r == x || r == -x
  {
    if x < 0.0 then -x else x
  }

  /** std::max(a, b), which is (a < b) ? b : a and exact on doubles. */
  function Max(a: real, b: real): (r: real)
    ensures r >= a && r >= b
    ensures r == a || r == b
  {
    if a < b then b else a
  }

  /** The entry test of the driver: some operand has a magnitude strictly above the bound. */
  predicate Exceeds(o: Operands<real>, bound: real) {
    || Abs(o.px) > bound || Abs(o.py) > bound || Abs(o.pw) > bound
    || Abs(o.qx) > bound || Abs(o.qy) > bound || Abs(o.qw) > bound
    || Abs(o.tx) > bound || Abs(o.ty) > bound || Abs(o.tw) > bound
  }

  /** The magnitudes of the nine operands, in the order the header tests them. */
  function Magnitudes(o: Operands<real>): (m: seq<real>)
    ensures |m| == 9
    ensures forall i :: 0 <= i < 9 ==> m[i] == Abs(o.AsSeq()[i])
  {
    [Abs(o.px), Abs(o.py), Abs(o.pw), Abs(o.qx), Abs(o.qy), Abs(o.qw), Abs(o.tx), Abs(o.ty), Abs(o.tw)]
  }

  /** The test fires exactly when one of the nine operands is strictly larger in magnitude than the bound. */
  lemma ExceedsIffSomeOperand(o: Operands<real>, bound: real)
    ensures Exceeds(o, bound) <==> exists i :: 0 <= i < 9 && Magnitudes(o)[i] > bound
  {
    var m := Magnitudes(o);
    if Exceeds(o, bound) {
      var i := if m[0] > bound then 0 else if m[1] > bound then 1 else if m[2] > bound then 2
               else if m[3] > bound then 3 else if m[4] > bound then 4 else if m[5] > bound then 5
               else if m[6] > bound then 6 else if m[7] > bound then 7 else 8;
      assert m[i] > bound;
    }
  }

  /**
   The entry test against the bound the re-adjust block computes: it fires
   exactly when that bound is strictly above the cached one.  An operand
   whose magnitude equals the cached bound does not fire it, and a negative
   cached bound such as the sentinel always does.
   */
  lemma ExceedsIffAboveMaxAbs(o: Operands<real>, bound: real)
    ensures Exceeds(o, bound) <==> MaxAbs(o) > bound
  {
    if bound < 0.0 {
      SentinelAlwaysExceeded(o, bound);
    } else if !Exceeds(o, bound) {
      MaxAbsIsLeast(o, bound);
    }
  }

  /**
   The bound the re-adjust block computes: nine successive maxima starting
   from 0.0, in operand order.  It is the least non-negative bound that no
   operand exceeds, and it is 0.0 or the magnitude of one of the operands.
   */
  function MaxAbs(o: Operands<real>): (r: real)
    ensures r >= 0.0
    ensures !Exceeds(o, r)
    ensures r == 0.0 || r in Magnitudes(o)
  {
    var b1 := Max(0.0, Abs(o.px));
    var b2 := Max(b1, Abs(o.py));
    var b3 := Max(b2, Abs(o.pw));
    var b4 := Max(b3, Abs(o.qx));
    var b5 := Max(b4, Abs(o.qy));
    var b6 := Max(b5, Abs(o.qw));
    var b7 := Max(b6, Abs(o.tx));
    var b8 := Max(b7, Abs(o.ty));
    Max(b8, Abs(o.tw))
  }

  /** No smaller non-negative bound covers the operands. */
  lemma MaxAbsIsLeast(o: Operands<real>, bound: real)
    requires bound >= 0.0 && !Exceeds(o, bound)
    ensures MaxAbs(o) <= bound
  {
    var r := MaxAbs(o);
    if r != 0.0 {
      var i :| 0 <= i < 9 && r == Magnitudes(o)[i];
      ExceedsIffSomeOperand(o, bound);
    }
  }

  /** The sentinel -1.0 of a fresh context is below every magnitude, so every operand exceeds it. */
  lemma SentinelAlwaysExceeded(o: Operands<real>, sentinel: real)
    requires sentinel < 0.0
    ensures Exceeds(o, sentinel)
  {
    assert Abs(o.px) >= 0.0;
  }

  /** A value of Static_filter_error: a bound on its magnitude and on its accumulated rounding error. */
  datatype ErrorTracked = ErrorTracked(bound: real, error: real)

  /** Static_filter_error(d): a magnitude placeholder with no error yet. */
  function Seed(bound: real): ErrorTracked {
    ErrorTracked(bound, 0.0)
  }

  /**
   The floating-point number types, given as their operations:
   `rounded` is double arithmetic on Restricted_double values,
   `tracked` is the error propagation of Static_filter_error.
   */
  datatype FloatModel = FloatModel(rounded: Arith<real>, tracked: Arith<ErrorTracked>)

  /** The result of sign_SAF over Restricted_double: a sign, or unsafe_comparison. */
  datatype SafOutcome = Definite(side: OrientedSide) | Uncertain

  /**
   sign_SAF(x, epsilon) over Restricted_double: the sign of x when |x| is
   above epsilon, otherwise the comparison is unsafe.
   */
  function SignSaf(x: real, epsilon: real): SafOutcome {
    if Abs(x) > epsilon then Definite(SideOf(x)) else Uncertain
  }

  /**
   What sign_SAF is for: when the computed value x is within epsilon of the
   exact value e, a definite answer is the sign of e.
   */
  lemma SignSafSound(x: real, e: real, epsilon: real)
    requires Abs(x - e) <= epsilon && SignSaf(x, epsilon).Definite?
    ensures SignSaf(x, epsilon).side == SideOf(e)
  {
  }

  /** With a non-negative epsilon a definite answer is never the boundary. */
  lemma DefiniteIsNeverBoundary(x: real, epsilon: real)
    requires epsilon >= 0.0
    ensures SignSaf(x, epsilon) != Definite(OnOrientedBoundary)
  {
    if SignSaf(x, epsilon).Definite? {
      assert x != 0.0;
    }
  }

  /**
   in_smallest_orthogonalcircleC2_SAF over Static_filter_error: the value it
   writes to its epsilon_0 out-parameter, the error bound of the expression.
   (Its returned side is discarded by the driver and is not modelled.)
   */
  function SafErrorBound(fm: FloatModel, o: Operands<ErrorTracked>): real {
    Expr(fm.tracked, o).error
  }

  /** in_smallest_orthogonalcircleC2_SAF over Restricted_double with a given epsilon. */
  function SafFast(fm: FloatModel, o: Operands<real>, epsilon: real): SafOutcome {
    SignSaf(Expr(fm.rounded, o), epsilon)
  }

  /** The epsilon the re-adjust block derives for a bound: the error-bound overload on nine copies of Static_filter_error(bound). */
  function DerivedEpsilon(fm: FloatModel, bound: real): real {
    SafErrorBound(fm, Uniform(Seed(bound)))
  }

  /**
   The assumption the scheme rests on: for operands of magnitude at most a
   non-negative bound, rounded evaluation of the expression is within the
   derived epsilon of the exact value.
   */
  ghost predicate Certified(fm: FloatModel) {
    forall o: Operands<real>, bound: real
      {:trigger Exceeds(o, bound), DerivedEpsilon(fm, bound)}
      :: bound >= 0.0 && !Exceeds(o, bound) ==>
           Abs(Expr(fm.rounded, o) - ExactValue(o)) <= DerivedEpsilon(fm, bound)
  }

  /** Under the assumption, every derived epsilon is non-negative. */
  lemma CertifiedEpsilonNonNegative(fm: FloatModel, bound: real)
    requires Certified(fm) && bound >= 0.0
    ensures DerivedEpsilon(fm, bound) >= 0.0
  {
    var o := Uniform(0.0);
    assert !Exceeds(o, bound);
  }

  /**
   A definite answer of the fast overload, under an epsilon derived for a
   bound that covers the operands, is the exact side.
   */
  lemma FastDefiniteIsExact(fm: FloatModel, o: Operands<real>, bound: real)
    requires Certified(fm) && bound >= 0.0 && !Exceeds(o, bound)
    requires SafFast(fm, o, DerivedEpsilon(fm, bound)).Definite?
    ensures SafFast(fm, o, DerivedEpsilon(fm, bound)).side == ExactSide(o)
  {
    var x, e, eps := Expr(fm.rounded, o), ExactValue(o), DerivedEpsilon(fm, bound);
    assert Abs(x - e) <= eps;
    SignSafSound(x, e, eps);
  }

  /** Under the assumption, when the exact value is zero the fast overload never answers. */
  lemma FastUncertainOnZero(fm: FloatModel, o: Operands<real>, bound: real)
    requires Certified(fm) && bound >= 0.0 && !Exceeds(o, bound)
    requires ExactValue(o) == 0.0
    ensures SafFast(fm, o, DerivedEpsilon(fm, bound)) == Uncertain
  {
    assert Abs(Expr(fm.rounded, o) - ExactValue(o)) <= DerivedEpsilon(fm, bound);
  }

  /** Error propagation that never accumulates error, for arithmetic without rounding. */
  function ErrorFreeArith(): Arith<ErrorTracked> {
    Arith((a: ErrorTracked, b: ErrorTracked) => ErrorTracked(a.bound + b.bound, 0.0),
          (a: ErrorTracked, b: ErrorTracked) => ErrorTracked(a.bound + b.bound, 0.0),
          (a: ErrorTracked, b: ErrorTracked) => ErrorTracked(a.bound * b.bound, 0.0),
          (a: ErrorTracked) => ErrorTracked(a.bound * a.bound, 0.0))
  }

  /** A float model without rounding: doubles behave as reals and every derived epsilon is 0. */
  function ExactFloatModel(): (fm: FloatModel)
    ensures forall bound :: DerivedEpsilon(fm, bound) == 0.0
  {
    FloatModel(RealArith(), ErrorFreeArith())
  }

  /** The model without rounding satisfies the soundness assumption. */
  lemma ExactFloatModelIsCertified()
    ensures Certified(ExactFloatModel())
  {
    var fm := ExactFloatModel();
    forall o: Operands<real>, bound: real | bound >= 0.0 && !Exceeds(o, bound)
      ensures Abs(Expr(fm.rounded, o) - ExactValue(o)) <= DerivedEpsilon(fm, bound)
    {
      assert Expr(fm.rounded, o) == ExactValue(o);
    }
  }
}
