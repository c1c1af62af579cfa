/**
 * `sp.solve(p, v)` for a polynomial in one variable, as far as the solver
 * needs it: no roots for a constant, `-c0/c1` for a linear polynomial and the
 * quadratic formula for a quadratic one. Higher degrees are outside the model.
 */
module Roots {
  import opened Wrappers
  import opened Algebra
  import opened Surds

  /**
   * The real number the surd `s` stands for, taking `t` as the principal
   * (non-negative) square root of its radicand, as `sqrt` does.
   */
  ghost predicate Denotes(s: Surd, x: real) {
    exists t: real :: 0.0 <= t && t * t == s.radicand && At(s, t) == x
  }

  /** A surd stands for at most one real number. */
  lemma DenotesUnique(s: Surd, x: real, y: real)
    requires Denotes(s, x) && Denotes(s, y)
    ensures x == y
  {
    var t: real :| 0.0 <= t && t * t == s.radicand && At(s, t) == x;
    var u: real :| 0.0 <= u && u * u == s.radicand && At(s, u) == y;
    PrincipalRootUnique(t, u);
  }

  lemma PrincipalRootUnique(t: real, u: real)
    requires 0.0 <= t && 0.0 <= u && t * t == u * u
    ensures t == u
  {
    assert (t - u) * (t + u) == t * t - u * u;
    if t + u == 0.0 {
      assert t == 0.0 && u == 0.0;
    } else {
      ProductZero(t - u, t + u);
    }
  }

  lemma ProductZero(m: real, n: real)
    requires m * n == 0.0 && n != 0.0
    ensures m == 0.0
  {
    assert m == (m * n) / n;
  }

  /**
   * With Δ > 0 and `t` its principal square root, the two formula roots
   * stand for two different real roots of `[c, b, a]`.
   */
  lemma FormulaRootsDistinct(p: Poly, t: real)
    requires |p| == 3 && p[2] != 0.0
    requires Discriminant(p[2], p[1], p[0]) > 0.0 && 0.0 <= t && t * t == Discriminant(p[2], p[1], p[0])
    ensures var plus, minus := FormulaRoot(p[2], p[1], p[0], 1.0), FormulaRoot(p[2], p[1], p[0], -1.0);
            && Denotes(plus, At(plus, t)) && Denotes(minus, At(minus, t))
            && At(plus, t) != At(minus, t)
            && Eval(p, At(plus, t)) == 0.0 && Eval(p, At(minus, t)) == 0.0
  {
    var a := p[2];
    var plus, minus := FormulaRoot(a, p[1], p[0], 1.0), FormulaRoot(a, p[1], p[0], -1.0);
    FormulaRootIsZero(p, 1.0);
    FormulaRootIsZero(p, -1.0);
    VerifiedIsRoot(p, plus, t);
    VerifiedIsRoot(p, minus, t);
    assert t != 0.0;
    assert At(plus, t) - At(minus, t) == 2.0 * (1.0 / (2.0 * a)) * t;
    ProductNonZero(2.0 * (1.0 / (2.0 * a)), t);
  }

  lemma ProductNonZero(m: real, n: real)
    requires m != 0.0 && n != 0.0
    ensures m * n != 0.0
  {
    if m * n == 0.0 {
      ProductZero(n, m);
    }
  }

  /**
   * The distinct roots of a degree-2 polynomial `[c, b, a]`: the repeated
   * root when Δ is zero, otherwise the two roots of the formula.
   */
  function QuadraticRoots(p: Poly): (r: seq<Surd>)
    requires |p| == 3 && p[2] != 0.0
    ensures |r| == if Discriminant(p[2], p[1], p[0]) == 0.0 then 1 else 2
    ensures forall s | s in r :: IsZero(SEval(p, s))
  {
    var a, b, c := p[2], p[1], p[0];
    if Discriminant(a, b, c) == 0.0 then
      DoubleRootIsZero(p);
      [DoubleRoot(a, b)]
    else
      FormulaRootIsZero(p, -1.0);
      FormulaRootIsZero(p, 1.0);
      [FormulaRoot(a, b, c, -1.0), FormulaRoot(a, b, c, 1.0)]
  }

  /**
   * The roots SymPy lists for a canonical polynomial, or `None` above
   * degree 2. Every listed root makes the polynomial exactly zero.
   */
  function SolvePoly(p: Poly): (r: Option<seq<Surd>>)
    requires Canon(p)
    ensures r.Some? <==> |p| <= 3
    ensures |p| <= 1 ==> r == Some([])
    ensures |p| == 2 ==> r == Some([LinearRoot(p)])
    ensures r.Some? ==> forall s | s in r.value :: IsZero(SEval(p, s))
  {
    if |p| <= 1 then Some([])
    else if |p| == 2 then
      LinearRootIsZero(p);
      Some([LinearRoot(p)])
    else if |p| == 3 then Some(QuadraticRoots(p))
    else None
  }

  /** Every listed root is a real root wherever its radicand has a square root. */
  lemma SolvePolySound(p: Poly, s: Surd, x: real)
    requires Canon(p) && SolvePoly(p).Some? && s in SolvePoly(p).value && Denotes(s, x)
    ensures Eval(p, x) == 0.0
  {
    var t: real :| t * t == s.radicand && At(s, t) == x;
    VerifiedIsRoot(p, s, t);
  }

  lemma EvalLinear(p: Poly, x: real)
    requires |p| == 2
    ensures Eval(p, x) == p[0] + p[1] * x
  {
    assert p[1..] == [p[1]];
    EvalConstant(p[1], x);
  }

  lemma EvalQuadratic(p: Poly, x: real)
    requires |p| == 3
    ensures Eval(p, x) == p[0] + p[1] * x + p[2] * x * x
  {
    assert p[1..][1..][1..] == [];
    assert Eval(p[1..][1..], x) == p[2];
  }

  /** Every real root of a polynomial of degree 1 or 2 is denoted by a listed root. */
  lemma {:induction false} SolvePolyComplete(p: Poly, x: real)
    requires Canon(p) && 2 <= |p| <= 3 && Eval(p, x) == 0.0
    ensures exists s | s in SolvePoly(p).value :: Denotes(s, x)
  {
    if |p| == 2 {
      EvalLinear(p, x);
      LinearSolved(p[0], p[1], x);
      var s := LinearRoot(p);
      assert At(s, 0.0) == x;
      assert s in SolvePoly(p).value && Denotes(s, x);
    } else {
      var a, b, c := p[2], p[1], p[0];
      FormulaDenotesRoot(p, x);
      var s := ListedRoot(a, b, c, x);
      assert s in QuadraticRoots(p);
      assert s in SolvePoly(p).value && Denotes(s, x);
    }
  }

  /**
   * The listed root that stands for a real root `x` of `[c, b, a]`: the
   * repeated root when Δ is zero, otherwise the formula root whose sign is
   * that of `2ax + b`.
   */
  function ListedRoot(a: real, b: real, c: real, x: real): Surd
    requires a != 0.0
  {
    if Discriminant(a, b, c) == 0.0 then DoubleRoot(a, b)
    else FormulaRoot(a, b, c, if 2.0 * a * x + b >= 0.0 then 1.0 else -1.0)
  }

  /** A real root of `[c, b, a]` is denoted by the formula root of the sign of `2ax + b`. */
  lemma FormulaDenotesRoot(p: Poly, x: real)
    requires |p| == 3 && p[2] != 0.0 && Eval(p, x) == 0.0
    ensures var a, b, c := p[2], p[1], p[0];
            && (Discriminant(a, b, c) == 0.0 ==> Denotes(DoubleRoot(a, b), x))
            && (Discriminant(a, b, c) != 0.0 && 2.0 * a * x + b >= 0.0 ==> Denotes(FormulaRoot(a, b, c, 1.0), x))
            && (Discriminant(a, b, c) != 0.0 && 2.0 * a * x + b < 0.0 ==> Denotes(FormulaRoot(a, b, c, -1.0), x))
            && Denotes(ListedRoot(a, b, c, x), x)
  {
    EvalQuadratic(p, x);
    FormulaInverse(p[2], p[1], p[0], x);
  }

  lemma LinearSolved(c: real, b: real, x: real)
    requires b != 0.0 && c + b * x == 0.0
    ensures x == -c / b
  {
  }

  /** A root `x` of `[c, b, a]` is what the formula gives for `t = |2ax + b|` and the sign of `2ax + b`. */
  lemma FormulaInverse(a: real, b: real, c: real, x: real)
    requires a != 0.0 && c + b * x + a * x * x == 0.0
    ensures Denotes(ListedRoot(a, b, c, x), x)
  {
    var t := 2.0 * a * x + b;
    var s := ListedRoot(a, b, c, x);
    SquareOfShift(a, b, c, x);
    assert t * t == Discriminant(a, b, c);
    ShiftInverse(a, b, x, t);
    if Discriminant(a, b, c) == 0.0 {
      ZeroSquare(t);
      assert 0.0 * 0.0 == s.radicand && At(s, 0.0) == x;
    } else if t >= 0.0 {
      assert At(s, t) == -b / (2.0 * a) + 1.0 / (2.0 * a) * t;
      assert 0.0 <= t && t * t == s.radicand && At(s, t) == x;
    } else {
      assert At(s, -t) == -b / (2.0 * a) + -1.0 / (2.0 * a) * -t;
      assert (-t) * (-t) == t * t;
      assert 0.0 <= -t && (-t) * (-t) == s.radicand && At(s, -t) == x;
    }
  }

  lemma SquareOfShift(a: real, b: real, c: real, x: real)
    requires c + b * x + a * x * x == 0.0
    ensures (2.0 * a * x + b) * (2.0 * a * x + b) == Discriminant(a, b, c)
  {
    calc {
      (2.0 * a * x + b) * (2.0 * a * x + b);
      4.0 * a * (c + b * x + a * x * x) + b * b - 4.0 * a * c;
      b * b - 4.0 * a * c;
    }
  }

  lemma ZeroSquare(t: real)
    ensures t * t == 0.0 ==> t == 0.0
  {
    if t != 0.0 {
      CancelSquare(t, 1.0 / t);
    }
  }

  lemma CancelSquare(t: real, h: real)
    requires t * h == 1.0
    ensures (t * t) * h == t
  {
    assert (t * t) * h == t * (t * h);
  }

  lemma ShiftInverse(a: real, b: real, x: real, t: real)
    requires a != 0.0 && t == 2.0 * a * x + b
    ensures x == -b / (2.0 * a) + 1.0 / (2.0 * a) * t
  {
    var h := 1.0 / (2.0 * a);
    assert 2.0 * a * h == 1.0;
    assert -b / (2.0 * a) == -b * h;
    assert x == (t - b) * h;
  }
}
