/**
 * The exact arithmetic the solver relies on in place of SymPy: expression
 * trees as `sympify` produces them, polynomials in one variable as
 * coefficient lists (what `expand` and `Poly(...).all_coeffs()` give), and
 * values `u + w·√d` that cover both the real and the complex roots of the
 * quadratic formula without a square-root function.
 */
module Algebra {
  import opened Wrappers

  // ---------------------------------------------------------------------------
  // Expressions

  /** A parsed expression; `Pow` has a literal natural exponent. */
  datatype Expr =
    | Num(value: real)
    | Var(name: string)
    | Add(left: Expr, right: Expr)
    | Sub(left: Expr, right: Expr)
    | Mul(left: Expr, right: Expr)
    | Div(left: Expr, right: Expr)
    | Pow(base: Expr, exponent: nat)
    | Neg(operand: Expr)

  /** `sp.Eq(lhs, rhs)`. */
  datatype Equation = Eq(lhs: Expr, rhs: Expr)

  function Power(x: real, k: nat): real {
    if k == 0 then 1.0 else x * Power(x, k - 1)
  }

  /** The value of an expression, or `Undefined` where SymPy would give `zoo` or `nan`. */
  datatype Scalar = Undefined | Known(value: real)

  /**
   * Value of `e` when `v` is `x`: `Undefined` for another variable or a
   * division by zero.
   */
  function Value(e: Expr, v: string, x: real): Scalar {
    match e
    case Num(c) => Known(c)
    case Var(n) => if n == v then Known(x) else Undefined
    case Add(l, r) =>
      var a, b := Value(l, v, x), Value(r, v, x);
      if a.Known? && b.Known? then Known(a.value + b.value) else Undefined
    case Sub(l, r) =>
      var a, b := Value(l, v, x), Value(r, v, x);
      if a.Known? && b.Known? then Known(a.value - b.value) else Undefined
    case Mul(l, r) =>
      var a, b := Value(l, v, x), Value(r, v, x);
      if a.Known? && b.Known? then Known(a.value * b.value) else Undefined
    case Div(l, r) =>
      var a, b := Value(l, v, x), Value(r, v, x);
      if a.Known? && b.Known? && b.value != 0.0 then Known(a.value / b.value) else Undefined
    case Pow(b, k) => var a := Value(b, v, x); if a.Known? then Known(Power(a.value, k)) else Undefined
    case Neg(o) => var a := Value(o, v, x); if a.Known? then Known(-a.value) else Undefined
  }

  // ---------------------------------------------------------------------------
  // Polynomials: coefficient lists, constant term first

  type Poly = seq<real>

  /** No trailing zero coefficient: one list per polynomial. */
  predicate Canon(p: Poly) {
    |p| == 0 || p[|p| - 1] != 0.0
  }

  /** Horner evaluation. */
  function Eval(p: Poly, x: real): real {
    if |p| == 0 then 0.0 else p[0] + x * Eval(p[1..], x)
  }

  /** Drop trailing zero coefficients. */
  function Norm(p: Poly): (r: Poly)
    ensures Canon(r) && |r| <= |p|
  {
    if |p| == 0 || p[|p| - 1] != 0.0 then p else Norm(p[..|p| - 1])
  }

  /** Normalising keeps a prefix and drops only zeros. */
  lemma {:induction false} NormPrefix(p: Poly)
    ensures Norm(p) == p[..|Norm(p)|]
    ensures forall i | |Norm(p)| <= i < |p| :: p[i] == 0.0
  {
    if |p| > 0 && p[|p| - 1] == 0.0 {
      var q := p[..|p| - 1];
      NormPrefix(q);
      assert q[..|Norm(q)|] == p[..|Norm(q)|];
    }
  }

  lemma {:induction false} EvalZeros(p: Poly, x: real)
    requires forall i | 0 <= i < |p| :: p[i] == 0.0
    ensures Eval(p, x) == 0.0
  {
    if |p| > 0 {
      EvalZeros(p[1..], x);
    }
  }

  lemma {:induction false} EvalAppend(p: Poly, q: Poly, x: real)
    requires forall i | 0 <= i < |q| :: q[i] == 0.0
    ensures Eval(p + q, x) == Eval(p, x)
  {
    if |p| == 0 {
      assert p + q == q;
      EvalZeros(q, x);
    } else {
      assert (p + q)[1..] == p[1..] + q;
      EvalAppend(p[1..], q, x);
    }
  }

  lemma EvalNorm(p: Poly, x: real)
    ensures Eval(Norm(p), x) == Eval(p, x)
  {
    var r := Norm(p);
    NormPrefix(p);
    assert p == r + p[|r|..];
    EvalAppend(r, p[|r|..], x);
  }

  function Coef(p: Poly, i: nat): real {
    if i < |p| then p[i] else 0.0
  }

  /** Coefficient-wise sum. */
  function RawAdd(p: Poly, q: Poly): (r: Poly)
    ensures |r| == if |p| < |q| then |q| else |p|
  {
    if |p| == 0 then q
    else if |q| == 0 then p
    else [p[0] + q[0]] + RawAdd(p[1..], q[1..])
  }

  /** Every coefficient times `c`. */
  function Scale(c: real, p: Poly): (r: Poly)
    ensures |r| == |p|
  {
    if |p| == 0 then [] else [c * p[0]] + Scale(c, p[1..])
  }

  lemma {:induction false} EvalRawAdd(p: Poly, q: Poly, x: real)
    ensures Eval(RawAdd(p, q), x) == Eval(p, x) + Eval(q, x)
    decreases |p| + |q|
  {
    if |p| > 0 && |q| > 0 {
      var r := RawAdd(p[1..], q[1..]);
      assert ([p[0] + q[0]] + r)[1..] == r;
      EvalRawAdd(p[1..], q[1..], x);
    }
  }

  lemma {:induction false} EvalScale(c: real, p: Poly, x: real)
    ensures Eval(Scale(c, p), x) == c * Eval(p, x)
  {
    if |p| > 0 {
      assert ([c * p[0]] + Scale(c, p[1..]))[1..] == Scale(c, p[1..]);
      EvalScale(c, p[1..], x);
    }
  }

  /** Product, before normalisation. */
  function RawMul(p: Poly, q: Poly): Poly {
    if |p| == 0 then [] else RawAdd(Scale(p[0], q), [0.0] + RawMul(p[1..], q))
  }

  lemma {:induction false} EvalRawMul(p: Poly, q: Poly, x: real)
    ensures Eval(RawMul(p, q), x) == Eval(p, x) * Eval(q, x)
  {
    if |p| > 0 {
      var t := RawMul(p[1..], q);
      EvalRawMul(p[1..], q, x);
      EvalRawMulStep(p, q, x);
      EvalScale(p[0], q, x);
      EvalShift(t, x);
    } else {
      EvalRawMulEmpty(p, q, x);
    }
  }

  lemma EvalRawMulEmpty(p: Poly, q: Poly, x: real)
    requires |p| == 0
    ensures Eval(RawMul(p, q), x) == Eval(p, x) * Eval(q, x)
  {
  }

  /** One step of the product: `p[0]` times `q`, plus the rest shifted up by one. */
  lemma EvalRawMulStep(p: Poly, q: Poly, x: real)
    requires |p| > 0
    ensures Eval(RawMul(p, q), x) == Eval(Scale(p[0], q), x) + Eval([0.0] + RawMul(p[1..], q), x)
  {
    EvalRawAdd(Scale(p[0], q), [0.0] + RawMul(p[1..], q), x);
  }

  /** Multiplying by the variable shifts the coefficients up by one. */
  lemma EvalShift(t: Poly, x: real)
    ensures Eval([0.0] + t, x) == x * Eval(t, x)
  {
    assert ([0.0] + t)[1..] == t;
  }

  function PAdd(p: Poly, q: Poly): Poly { Norm(RawAdd(p, q)) }
  function PNeg(p: Poly): Poly { Norm(Scale(-1.0, p)) }
  function PSub(p: Poly, q: Poly): Poly { Norm(RawAdd(p, Scale(-1.0, q))) }
  function PMul(p: Poly, q: Poly): Poly { Norm(RawMul(p, q)) }

  function PPow(p: Poly, k: nat): Poly {
    if k == 0 then [1.0] else PMul(p, PPow(p, k - 1))
  }

  /**
   * `expand` followed by `Poly(_, v)`: the polynomial of `e` in `v`, or
   * `None` when `e` mentions another variable or divides by a non-constant
   * or by zero.
   */
  function ToPoly(e: Expr, v: string): (r: Option<Poly>)
    ensures r.Some? ==> Canon(r.value)
  {
    match e
    case Num(c) => Some(Norm([c]))
    case Var(n) => if n == v then Some([0.0, 1.0]) else None
    case Add(l, r) =>
      var a, b := ToPoly(l, v), ToPoly(r, v);
      if a.Some? && b.Some? then Some(PAdd(a.value, b.value)) else None
    case Sub(l, r) =>
      var a, b := ToPoly(l, v), ToPoly(r, v);
      if a.Some? && b.Some? then Some(PSub(a.value, b.value)) else None
    case Mul(l, r) =>
      var a, b := ToPoly(l, v), ToPoly(r, v);
      if a.Some? && b.Some? then Some(PMul(a.value, b.value)) else None
    case Div(l, r) =>
      var a := ToPoly(l, v);
      var b := ToPoly(r, v);
      if a.Some? && b.Some? && |b.value| == 1 then Some(Norm(Scale(1.0 / b.value[0], a.value))) else None
    case Pow(b, k) => var a := ToPoly(b, v); if a.Some? then Some(PPow(a.value, k)) else None
    case Neg(o) => var a := ToPoly(o, v); if a.Some? then Some(PNeg(a.value)) else None
  }

  /** Equal factors give equal products. */
  lemma MulCongruence(a: real, b: real, c: real)
    ensures b == c ==> a * b == a * c
  {
  }

  lemma EvalPAdd(p: Poly, q: Poly, x: real)
    ensures Eval(PAdd(p, q), x) == Eval(p, x) + Eval(q, x)
  {
    EvalNorm(RawAdd(p, q), x);
    EvalRawAdd(p, q, x);
  }

  lemma EvalPSub(p: Poly, q: Poly, x: real)
    ensures Eval(PSub(p, q), x) == Eval(p, x) - Eval(q, x)
  {
    var m := Scale(-1.0, q);
    EvalNorm(RawAdd(p, m), x);
    EvalRawAdd(p, m, x);
    EvalScale(-1.0, q, x);
    SubChain(Eval(PSub(p, q), x), Eval(Norm(RawAdd(p, m)), x), Eval(RawAdd(p, m), x), Eval(p, x), Eval(m, x), Eval(q, x));
  }

  /** Adding the negation is subtracting. */
  lemma SubChain(n: real, k: real, t: real, a: real, m: real, b: real)
    ensures n == k && k == t && t == a + m && m == -1.0 * b ==> n == a - b
  {
  }

  lemma EvalPMul(p: Poly, q: Poly, x: real)
    ensures Eval(PMul(p, q), x) == Eval(p, x) * Eval(q, x)
  {
    EvalNorm(RawMul(p, q), x);
    EvalRawMul(p, q, x);
  }

  lemma EvalConstant(c: real, x: real)
    ensures Eval([c], x) == c
  {
    assert [c][1..] == [];
    assert Eval([c], x) == c + x * Eval([], x);
  }

  lemma {:induction false} EvalPPow(p: Poly, k: nat, x: real)
    ensures Eval(PPow(p, k), x) == Power(Eval(p, x), k)
  {
    if k == 0 {
      EvalConstant(1.0, x);
    } else {
      EvalPPow(p, k - 1, x);
      EvalPPowStep(p, k, x);
    }
  }

  /** One more factor of `p` multiplies the value by `p`'s value. */
  lemma EvalPPowStep(p: Poly, k: nat, x: real)
    requires k > 0
    ensures Eval(PPow(p, k - 1), x) == Power(Eval(p, x), k - 1) ==> Eval(PPow(p, k), x) == Power(Eval(p, x), k)
  {
    EvalPMul(p, PPow(p, k - 1), x);
    MulCongruence(Eval(p, x), Eval(PPow(p, k - 1), x), Power(Eval(p, x), k - 1));
  }

  /** The polynomial of an expression has the expression's value at every point. */
  lemma {:induction false} ToPolySound(e: Expr, v: string, x: real)
    requires ToPoly(e, v).Some?
    ensures Value(e, v, x) == Known(Eval(ToPoly(e, v).value, x))
  {
    match e
    case Num(c) =>
      SoundNum(c, v, x);
    case Var(n) =>
      SoundVar(n, v, x);
    case Add(l, r) =>
      ToPolySound(l, v, x);
      ToPolySound(r, v, x);
      SoundAdd(l, r, v, x);
    case Sub(l, r) =>
      ToPolySound(l, v, x);
      ToPolySound(r, v, x);
      SoundSub(l, r, v, x);
    case Mul(l, r) =>
      ToPolySound(l, v, x);
      ToPolySound(r, v, x);
      SoundMul(l, r, v, x);
    case Div(l, r) =>
      ToPolyDiv(l, r, v);
      ToPolySound(l, v, x);
      ToPolySound(r, v, x);
      SoundDiv(l, r, v, x);
    case Pow(b, k) =>
      ToPolySound(b, v, x);
      SoundPow(b, k, v, x);
    case Neg(o) =>
      ToPolySound(o, v, x);
      SoundNeg(o, v, x);
  }

  lemma SoundNum(c: real, v: string, x: real)
    ensures Value(Num(c), v, x) == Known(Eval(ToPoly(Num(c), v).value, x))
  {
    EvalNorm([c], x);
    EvalConstant(c, x);
  }

  lemma SoundVar(n: string, v: string, x: real)
    requires ToPoly(Var(n), v).Some?
    ensures Value(Var(n), v, x) == Known(Eval(ToPoly(Var(n), v).value, x))
  {
    assert Eval([0.0, 1.0], x) == 0.0 + x * Eval([1.0], x);
    EvalConstant(1.0, x);
  }

  lemma SoundAdd(l: Expr, r: Expr, v: string, x: real)
    requires ToPoly(l, v).Some? && ToPoly(r, v).Some?
    requires Value(l, v, x) == Known(Eval(ToPoly(l, v).value, x))
    requires Value(r, v, x) == Known(Eval(ToPoly(r, v).value, x))
    ensures Value(Add(l, r), v, x) == Known(Eval(ToPoly(Add(l, r), v).value, x))
  {
    var p, q := ToPoly(l, v).value, ToPoly(r, v).value;
    assert ToPoly(Add(l, r), v) == Some(PAdd(p, q));
    EvalPAdd(p, q, x);
    ValueOfAdd(l, r, v, x, Eval(p, x), Eval(q, x));
  }

  lemma SoundSub(l: Expr, r: Expr, v: string, x: real)
    requires ToPoly(l, v).Some? && ToPoly(r, v).Some?
    requires Value(l, v, x) == Known(Eval(ToPoly(l, v).value, x))
    requires Value(r, v, x) == Known(Eval(ToPoly(r, v).value, x))
    ensures Value(Sub(l, r), v, x) == Known(Eval(ToPoly(Sub(l, r), v).value, x))
  {
    var p, q := ToPoly(l, v).value, ToPoly(r, v).value;
    assert ToPoly(Sub(l, r), v) == Some(PSub(p, q));
    EvalPSub(p, q, x);
    ValueOfSub(l, r, v, x, Eval(p, x), Eval(q, x));
  }

  lemma SoundMul(l: Expr, r: Expr, v: string, x: real)
    requires ToPoly(l, v).Some? && ToPoly(r, v).Some?
    requires Value(l, v, x) == Known(Eval(ToPoly(l, v).value, x))
    requires Value(r, v, x) == Known(Eval(ToPoly(r, v).value, x))
    ensures Value(Mul(l, r), v, x) == Known(Eval(ToPoly(Mul(l, r), v).value, x))
  {
    var p, q := ToPoly(l, v).value, ToPoly(r, v).value;
    assert ToPoly(Mul(l, r), v) == Some(PMul(p, q));
    var a, b := Eval(p, x), Eval(q, x);
    ValueOfMul(l, r, v, x, a, b);
    EvalPMulAt(p, q, x, a, b);
  }

  lemma EvalPMulAt(p: Poly, q: Poly, x: real, a: real, b: real)
    requires Eval(p, x) == a && Eval(q, x) == b
    ensures Eval(PMul(p, q), x) == a * b
  {
    EvalPMul(p, q, x);
  }

  lemma SoundDiv(l: Expr, r: Expr, v: string, x: real)
    requires ToPoly(l, v).Some? && ToPoly(r, v).Some? && |ToPoly(r, v).value| == 1
    requires ToPoly(r, v).value[0] != 0.0
    requires ToPoly(Div(l, r), v) == Some(Norm(Scale(1.0 / ToPoly(r, v).value[0], ToPoly(l, v).value)))
    requires Value(l, v, x) == Known(Eval(ToPoly(l, v).value, x))
    requires Value(r, v, x) == Known(Eval(ToPoly(r, v).value, x))
    ensures Value(Div(l, r), v, x) == Known(Eval(ToPoly(Div(l, r), v).value, x))
  {
    var p := ToPoly(l, v).value;
    var c := ToPoly(r, v).value[0];
    assert ToPoly(r, v).value == [c];
    EvalConstant(c, x);
    var a := Eval(p, x);
    ValueOfDiv(l, r, v, x, a, c);
    EvalQuotient(p, c, x, a);
  }

  lemma EvalQuotient(p: Poly, c: real, x: real, a: real)
    requires c != 0.0 && Eval(p, x) == a
    ensures Eval(Norm(Scale(1.0 / c, p)), x) == a / c
  {
    var scaled := Scale(1.0 / c, p);
    EvalNorm(scaled, x);
    EvalScale(1.0 / c, p, x);
    QuotientChain(Eval(Norm(scaled), x), Eval(scaled, x), Eval(p, x), a, c);
  }

  lemma QuotientChain(n: real, m: real, e: real, a: real, c: real)
    ensures c != 0.0 && n == m && m == 1.0 / c * e && e == a ==> n == a / c
  {
  }

  lemma ToPolyDiv(l: Expr, r: Expr, v: string)
    requires ToPoly(Div(l, r), v).Some?
    ensures ToPoly(l, v).Some? && ToPoly(r, v).Some? && |ToPoly(r, v).value| == 1
    ensures ToPoly(r, v).value[0] != 0.0
    ensures ToPoly(Div(l, r), v) == Some(Norm(Scale(1.0 / ToPoly(r, v).value[0], ToPoly(l, v).value)))
  {
  }

  lemma SoundPow(b: Expr, k: nat, v: string, x: real)
    requires ToPoly(b, v).Some?
    requires Value(b, v, x) == Known(Eval(ToPoly(b, v).value, x))
    ensures Value(Pow(b, k), v, x) == Known(Eval(ToPoly(Pow(b, k), v).value, x))
  {
    var p := ToPoly(b, v).value;
    assert ToPoly(Pow(b, k), v) == Some(PPow(p, k));
    EvalPPow(p, k, x);
    ValueOfPow(b, k, v, x, Eval(p, x));
  }

  lemma SoundNeg(o: Expr, v: string, x: real)
    requires ToPoly(o, v).Some?
    requires Value(o, v, x) == Known(Eval(ToPoly(o, v).value, x))
    ensures Value(Neg(o), v, x) == Known(Eval(ToPoly(Neg(o), v).value, x))
  {
    var p := ToPoly(o, v).value;
    assert ToPoly(Neg(o), v) == Some(PNeg(p));
    EvalNorm(Scale(-1.0, p), x);
    EvalScale(-1.0, p, x);
    ValueOfNeg(o, v, x, Eval(p, x));
  }

  lemma ValueOfAdd(l: Expr, r: Expr, v: string, x: real, a: real, b: real)
    requires Value(l, v, x) == Known(a) && Value(r, v, x) == Known(b)
    ensures Value(Add(l, r), v, x) == Known(a + b)
  {
  }

  lemma ValueOfSub(l: Expr, r: Expr, v: string, x: real, a: real, b: real)
    requires Value(l, v, x) == Known(a) && Value(r, v, x) == Known(b)
    ensures Value(Sub(l, r), v, x) == Known(a - b)
  {
  }

  lemma ValueOfMul(l: Expr, r: Expr, v: string, x: real, a: real, b: real)
    requires Value(l, v, x) == Known(a) && Value(r, v, x) == Known(b)
    ensures Value(Mul(l, r), v, x) == Known(a * b)
  {
  }

  lemma ValueOfDiv(l: Expr, r: Expr, v: string, x: real, a: real, c: real)
    requires c != 0.0
    requires Value(l, v, x) == Known(a) && Value(r, v, x) == Known(c)
    ensures Value(Div(l, r), v, x) == Known(a / c)
  {
  }

  lemma ValueOfPow(b: Expr, k: nat, v: string, x: real, a: real)
    requires Value(b, v, x) == Known(a)
    ensures Value(Pow(b, k), v, x) == Known(Power(a, k))
  {
  }

  lemma ValueOfNeg(o: Expr, v: string, x: real, a: real)
    requires Value(o, v, x) == Known(a)
    ensures Value(Neg(o), v, x) == Known(-a)
  {
  }

  // ---------------------------------------------------------------------------
  // Coefficients a, b, c

  /** `Poly(e, v).all_coeffs()`: highest degree first, `[0]` for the zero polynomial. */
  function AllCoeffs(p: Poly): (r: seq<real>)
    ensures |r| == if |p| == 0 then 1 else |p|
    ensures |p| > 0 ==> forall i | 0 <= i < |p| :: r[i] == p[|p| - 1 - i]
  {
    if |p| == 0 then [0.0] else seq(|p|, i requires 0 <= i < |p| => p[|p| - 1 - i])
  }

  /** `while len(coeffs) < 3: coeffs.insert(0, 0)`. */
  function PadFront(cs: seq<real>): (r: seq<real>)
    ensures |r| == if |cs| < 3 then 3 else |cs|
    ensures r[|r| - |cs|..] == cs
    ensures forall i | 0 <= i < |r| - |cs| :: r[i] == 0.0
  {
    if |cs| < 3 then seq(3 - |cs|, _ => 0.0) + cs else cs
  }

  /** `a, b, c = coeffs[-3], coeffs[-2], coeffs[-1]` after padding. */
  function Abc(p: Poly): (real, real, real) {
    var cs := PadFront(AllCoeffs(p));
    (cs[|cs| - 3], cs[|cs| - 2], cs[|cs| - 1])
  }

  /**
   * Whatever the degree, the padded triple holds the coefficients of x², x
   * and 1; a missing one reads as zero.
   */
  lemma AbcAreLowCoefficients(p: Poly)
    ensures Abc(p) == (Coef(p, 2), Coef(p, 1), Coef(p, 0))
  {
    var cs := AllCoeffs(p);
    var r := PadFront(cs);
    assert r[|r| - |cs|..] == cs;
    if |p| >= 3 {
      assert r == cs;
    } else if |p| == 2 {
      assert r[1..] == cs;
      assert r[1] == cs[0] && r[2] == cs[1];
    } else if |p| == 1 {
      assert r[2..] == cs;
      assert r[2] == cs[0];
    } else {
      assert r[2..] == cs;
      assert r[2] == cs[0];
    }
  }

  /** The discriminant `b**2 - 4*a*c`. */
  function Discriminant(a: real, b: real, c: real): real {
    b * b - 4.0 * a * c
  }

  /** Degree of a canonical polynomial; the zero polynomial has degree 0. */
  function Degree(p: Poly): nat {
    if |p| == 0 then 0 else |p| - 1
  }
}

