/**
 The algebra of the `in_smallest_orthogonalcircleC2` predicate, written once.

 The predicate takes two weighted points p = (px, py, pw), q = (qx, qy, qw) and
 a third weighted point t = (tx, ty, tw) and returns the sign of

   (dtx^2 + dty^2 - tw + qw) * dpz - (dpz - pw + qw) * (dpx*dtx + dpy*dty)

 with dpx = px - qx, dpy = py - qy, dtx = tx - qx, dty = ty - qy and
 dpz = dpx^2 + dpy^2.  The header instantiates this one expression tree over
 three number types (an error-bound type, a filtered double and an exact
 type); here the number type is a record of its operations, so every
 instantiation is literally the same tree.
 */
module Expression {

  /** The result of the predicate (CGAL's Oriented_side). */
  datatype OrientedSide = OnNegativeSide | OnOrientedBoundary | OnPositiveSide

  /** Oriented_side(sign(x)) for an exact value x. */
  function SideOf(x: real): OrientedSide {
    if x < 0.0 then OnNegativeSide
    else if x == 0.0 then OnOrientedBoundary
    else OnPositiveSide
  }

  /** The nine arguments of the predicate, in the order the header takes them. */
  datatype Operands<T> = Operands(px: T, py: T, pw: T, qx: T, qy: T, qw: T, tx: T, ty: T, tw: T)
  {
    function AsSeq(): (s: seq<T>)
      ensures |s| == 9
    {
      [px, py, pw, qx, qy, qw, tx, ty, tw]
    }

    /** The same operands converted to another number type, one by one. */
    function Map<U>(f: T -> U): Operands<U> {
      Operands(f(px), f(py), f(pw), f(qx), f(qy), f(qw), f(tx), f(ty), f(tw))
    }
  }

  /** Nine copies of one value, as the calibration passes Static_filter_error(SAF_bound) nine times. */
  function Uniform<T>(v: T): Operands<T> {
    Operands(v, v, v, v, v, v, v, v, v)
  }

  /** The operations the expression needs from a number type FT. */
  datatype Arith<!T> = Arith(add: (T, T) -> T, sub: (T, T) -> T, mul: (T, T) -> T, square: T -> T)

  /**
   The expression of in_smallest_orthogonalcircleC2_SAF, over any number type.
   The operations are grouped as C++ parses them
   (`a - b + c` is `(a - b) + c`), which matters for rounded arithmetic.
   */
  function Expr<T>(a: Arith<T>, o: Operands<T>): T {
    var dpx := a.sub(o.px, o.qx);
    var dpy := a.sub(o.py, o.qy);
    var dtx := a.sub(o.tx, o.qx);
    var dty := a.sub(o.ty, o.qy);
    var dpz := a.add(a.square(dpx), a.square(dpy));
    a.sub(a.mul(a.add(a.sub(a.add(a.square(dtx), a.square(dty)), o.tw), o.qw), dpz),
          a.mul(a.add(a.sub(dpz, o.pw), o.qw), a.add(a.mul(dpx, dtx), a.mul(dpy, dty))))
  }

  /** Exact arithmetic on reals: the exact number type of the fallback. */
  function RealArith(): Arith<real> {
    Arith((x: real, y: real) => x + y, (x: real, y: real) => x - y,
          (x: real, y: real) => x * y, (x: real) => x * x)
  }

  /** Exact arithmetic on integers, the other exact number type a caller may use. */
  function IntArith(): Arith<int> {
    Arith((x: int, y: int) => x + y, (x: int, y: int) => x - y,
          (x: int, y: int) => x * y, (x: int) => x * x)
  }

  /** The exact value of the expression for operands whose exact value is known. */
  function ExactValue(o: Operands<real>): real {
    Expr(RealArith(), o)
  }

  /** What the exact fallback returns: the sign of the exact value. */
  function ExactSide(o: Operands<real>): OrientedSide {
    SideOf(ExactValue(o))
  }

  /** The exact instantiation computes the polynomial of the header, term by term. */
  lemma ExactValueIsPolynomial(o: Operands<real>)
    ensures var dpx, dpy, dtx, dty := o.px - o.qx, o.py - o.qy, o.tx - o.qx, o.ty - o.qy;
            var dpz := dpx * dpx + dpy * dpy;
            ExactValue(o) == (dtx * dtx + dty * dty - o.tw + o.qw) * dpz
                             - (dpz - o.pw + o.qw) * (dpx * dtx + dpy * dty)
  {
  }

  /** If t coincides with q (same coordinates and weight), the expression is exactly zero. */
  lemma CoincidentTIsOnBoundary(o: Operands<real>)
    requires o.tx == o.qx && o.ty == o.qy && o.tw == o.qw
    ensures ExactValue(o) == 0.0
    ensures ExactSide(o) == OnOrientedBoundary
  {
    ExactValueIsPolynomial(o);
  }

  /** If p and q are at the same place (whatever their weights), the expression is exactly zero. */
  lemma CoincidentPIsOnBoundary(o: Operands<real>)
    requires o.px == o.qx && o.py == o.qy
    ensures ExactValue(o) == 0.0
    ensures ExactSide(o) == OnOrientedBoundary
  {
    ExactValueIsPolynomial(o);
  }

  /** h maps each operation of `a` onto the corresponding operation of `b`. */
  ghost predicate Homomorphism<T(!new), U>(h: T -> U, a: Arith<T>, b: Arith<U>) {
    && (forall x, y :: h(a.add(x, y)) == b.add(h(x), h(y)))
    && (forall x, y :: h(a.sub(x, y)) == b.sub(h(x), h(y)))
    && (forall x, y :: h(a.mul(x, y)) == b.mul(h(x), h(y)))
    && (forall x :: h(a.square(x)) == b.square(h(x)))
  }

  /**
   One expression tree for every number type: converting the operands and then
   evaluating gives what evaluating and then converting the result gives.
   */
  lemma ExpressionCommutes<T(!new), U>(h: T -> U, a: Arith<T>, b: Arith<U>, o: Operands<T>)
    requires Homomorphism(h, a, b)
    ensures h(Expr(a, o)) == Expr(b, o.Map(h))
  {
    var dpx, dpy, dtx, dty := a.sub(o.px, o.qx), a.sub(o.py, o.qy), a.sub(o.tx, o.qx), a.sub(o.ty, o.qy);
    var dpz := a.add(a.square(dpx), a.square(dpy));
    assert h(dpz) == b.add(b.square(h(dpx)), b.square(h(dpy)));
    var left := a.add(a.sub(a.add(a.square(dtx), a.square(dty)), o.tw), o.qw);
    assert h(left) == b.add(b.sub(b.add(b.square(h(dtx)), b.square(h(dty))), h(o.tw)), h(o.qw));
    var right := a.add(a.mul(dpx, dtx), a.mul(dpy, dty));
    assert h(right) == b.add(b.mul(h(dpx), h(dtx)), b.mul(h(dpy), h(dty)));
  }

  function IntToReal(i: int): real {
    i as real
  }

  /** Integers and reals as the exact number type give the same exact value, hence the same side. */
  lemma IntAndRealExactAgree(o: Operands<int>)
    ensures Expr(IntArith(), o) as real == ExactValue(o.Map(IntToReal))
    ensures SideOf(Expr(IntArith(), o) as real) == ExactSide(o.Map(IntToReal))
  {
    forall x: int, y: int ensures IntToReal(x * y) == IntToReal(x) * IntToReal(y) {
      MulToReal(x, y);
    }
    forall x: int ensures IntToReal(x * x) == IntToReal(x) * IntToReal(x) {
      MulToReal(x, x);
    }
    assert Homomorphism(IntToReal, IntArith(), RealArith());
    ExpressionCommutes(IntToReal, IntArith(), RealArith(), o);
  }

  lemma MulToReal(x: int, y: int)
    ensures (x * y) as real == (x as real) * (y as real)
  {
  }
}
