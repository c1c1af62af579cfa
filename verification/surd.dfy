/**
 * Exact values of the roots the solver reports. A root of a quadratic is
 * `u + w·√d` with rational `u`, `w` and the discriminant `d`; when `d < 0`
 * the square root is imaginary and the value is complex. Substituting such a
 * value into a polynomial stays inside the same form, so "substitute and
 * compare with zero" is an exact computation here.
 */
module Surds {
  import opened Algebra

  /** The number `rational + irrational·√radicand`. */
  datatype Surd = Surd(rational: real, irrational: real, radicand: real)

  function Rational(c: real): Surd {
    Surd(c, 0.0, 0.0)
  }

  function SAdd(s: Surd, t: Surd): (r: Surd)
    requires s.radicand == t.radicand
    ensures r.radicand == s.radicand
  {
    Surd(s.rational + t.rational, s.irrational + t.irrational, s.radicand)
  }

  /** Product, using `√d·√d == d`. */
  function SMul(s: Surd, t: Surd): (r: Surd)
    requires s.radicand == t.radicand
    ensures r.radicand == s.radicand
  {
    Surd(s.rational * t.rational + s.irrational * t.irrational * s.radicand,
         s.rational * t.irrational + s.irrational * t.rational,
         s.radicand)
  }

  /** `p.subs(v, s)`: Horner evaluation in the field that `s` lives in. */
  function SEval(p: Poly, s: Surd): (r: Surd)
    ensures r.radicand == s.radicand
  {
    if |p| == 0 then Surd(0.0, 0.0, s.radicand)
    else SAdd(Surd(p[0], 0.0, s.radicand), SMul(s, SEval(p[1..], s)))
  }

  /** Exactly zero: both parts vanish. */
  predicate IsZero(s: Surd) {
    s.rational == 0.0 && s.irrational == 0.0
  }

  /** The real number `s` denotes once `t` is fixed as the square root of its radicand. */
  function At(s: Surd, t: real): real {
    s.rational + s.irrational * t
  }

  lemma AtMul(s: Surd, u: Surd, t: real)
    requires s.radicand == u.radicand && t * t == s.radicand
    ensures At(SMul(s, u), t) == At(s, t) * At(u, t)
  {
    var p, q, m, n := s.rational, s.irrational, u.rational, u.irrational;
    assert (p + q * t) * (m + n * t) == p * m + q * n * (t * t) + (p * n + q * m) * t;
  }

  /**
   * Substituting a surd agrees with real evaluation at every real the surd
   * can stand for.
   */
  lemma {:induction false} SEvalAt(p: Poly, s: Surd, t: real)
    requires t * t == s.radicand
    ensures At(SEval(p, s), t) == Eval(p, At(s, t))
  {
    if |p| > 0 {
      var rest := SEval(p[1..], s);
      SEvalAt(p[1..], s, t);
      AtMul(s, rest, t);
    }
  }

  /** A root that checks out exactly is a real root whenever the radicand has a real square root. */
  lemma VerifiedIsRoot(p: Poly, s: Surd, t: real)
    requires IsZero(SEval(p, s)) && t * t == s.radicand
    ensures Eval(p, At(s, t)) == 0.0
  {
    SEvalAt(p, s, t);
  }

  // ---------------------------------------------------------------------------
  // The roots the solver produces

  /** `-c0/c1`, the root of a linear polynomial. */
  function LinearRoot(p: Poly): Surd
    requires |p| == 2 && p[1] != 0.0
  {
    Rational(-p[0] / p[1])
  }

  /** `(-b + sign·√Δ) / (2a)` with `sign` ±1. */
  function FormulaRoot(a: real, b: real, c: real, sign: real): Surd
    requires a != 0.0
  {
    Surd(-b / (2.0 * a), sign / (2.0 * a), Discriminant(a, b, c))
  }

  /** `-b / (2a)`, the repeated root when Δ is zero. */
  function DoubleRoot(a: real, b: real): Surd
    requires a != 0.0
  {
    Rational(-b / (2.0 * a))
  }

  lemma SEvalConstant(c: real, s: Surd)
    ensures SEval([c], s) == Surd(c, 0.0, s.radicand)
  {
    assert [c][1..] == [];
    var z := SEval([], s);
    assert SMul(s, z) == Surd(0.0, 0.0, s.radicand);
  }

  lemma SEvalCons(c: real, q: Poly, s: Surd)
    ensures SEval([c] + q, s) == SAdd(Surd(c, 0.0, s.radicand), SMul(s, SEval(q, s)))
  {
    assert ([c] + q)[1..] == q;
  }

  lemma LinearRootIsZero(p: Poly)
    requires |p| == 2 && p[1] != 0.0
    ensures IsZero(SEval(p, LinearRoot(p)))
  {
    var s := LinearRoot(p);
    assert p == [p[0]] + [p[1]];
    SEvalConstant(p[1], s);
    SEvalCons(p[0], [p[1]], s);
    assert s.rational * p[1] == -p[0];
  }

  /** The rational and irrational parts of `c + b·x + a·x²` at `x = u + w√d`. */
  lemma SEvalQuadratic(c: real, b: real, a: real, s: Surd)
    ensures SEval([c, b, a], s).rational
         == c + s.rational * b + s.rational * s.rational * a + s.irrational * s.irrational * a * s.radicand
    ensures SEval([c, b, a], s).irrational == s.irrational * (2.0 * s.rational * a + b)
  {
    assert [c, b, a] == [c] + [b, a];
    SEvalLinear(b, a, s);
    SEvalCons(c, [b, a], s);
    QuadraticSurd(s, SEval([b, a], s), SEval([c, b, a], s), c, b, a);
  }

  lemma ThreeCoefficients(p: Poly)
    requires |p| == 3
    ensures p == [p[0], p[1], p[2]]
  {
  }

  /** One Horner step on top of `b + a·x`, multiplied out. */
  lemma QuadraticSurd(s: Surd, t: Surd, e: Surd, c: real, b: real, a: real)
    requires t == Surd(b + s.rational * a, s.irrational * a, s.radicand)
    requires e == SAdd(Surd(c, 0.0, s.radicand), SMul(s, t))
    ensures e.rational == c + s.rational * b + s.rational * s.rational * a + s.irrational * s.irrational * a * s.radicand
    ensures e.irrational == s.irrational * (2.0 * s.rational * a + b)
  {
    SMulOf(s, t, b + s.rational * a, s.irrational * a);
    QuadraticParts(s.rational, s.irrational, s.radicand, c, b, a,
      SMul(s, t).rational, SMul(s, t).irrational, e.rational, e.irrational);
  }

  /** The parts of `s·t` once the parts of `t` are known. */
  lemma SMulOf(s: Surd, t: Surd, x: real, y: real)
    requires s.radicand == t.radicand && t.rational == x && t.irrational == y
    ensures SMul(s, t).rational == s.rational * x + s.irrational * y * s.radicand
    ensures SMul(s, t).irrational == s.rational * y + s.irrational * x
  {
  }

  /** `q1 + q2·x` at a surd. */
  lemma SEvalLinear(q1: real, q2: real, s: Surd)
    ensures SEval([q1, q2], s) == Surd(q1 + s.rational * q2, s.irrational * q2, s.radicand)
  {
    assert [q1, q2] == [q1] + [q2];
    SEvalConstant(q2, s);
    SEvalCons(q1, [q2], s);
    LinearSurd(s, SEval([q2], s), SEval([q1, q2], s), q1, q2);
  }

  /** One Horner step on top of a constant, multiplied out. */
  lemma LinearSurd(s: Surd, t: Surd, e: Surd, q1: real, q2: real)
    requires t == Surd(q2, 0.0, s.radicand)
    requires e == SAdd(Surd(q1, 0.0, s.radicand), SMul(s, t))
    ensures e == Surd(q1 + s.rational * q2, s.irrational * q2, s.radicand)
  {
    SMulOf(s, t, q2, 0.0);
  }

  /** Multiplying out `p0 + (u + w√d)·((p1 + u·p2) + w·p2·√d)`. */
  lemma QuadraticParts(u: real, w: real, d: real, p0: real, p1: real, p2: real, mr: real, mi: real, er: real, ei: real)
    requires mr == u * (p1 + u * p2) + w * (w * p2) * d && er == p0 + mr
    requires mi == u * (w * p2) + w * (p1 + u * p2) && ei == 0.0 + mi
    ensures er == p0 + u * p1 + u * u * p2 + w * w * p2 * d
    ensures ei == w * (2.0 * u * p2 + p1)
  {
  }

  /** The quadratic formula's algebra with the square root left symbolic. */
  lemma FormulaAlgebra(a: real, b: real, c: real, u: real, w: real)
    requires a != 0.0 && 2.0 * a * u == -b && 4.0 * a * a * w * w == 1.0
    ensures c + u * b + u * u * a + w * w * a * Discriminant(a, b, c) == 0.0
    ensures 2.0 * u * a + b == 0.0
  {
    var d := Discriminant(a, b, c);
    calc {
      4.0 * a * (c + u * b + u * u * a + w * w * a * d);
      4.0 * a * c + 2.0 * (2.0 * a * u) * b + (2.0 * a * u) * (2.0 * a * u) + (4.0 * a * a * w * w) * d;
      4.0 * a * c - 2.0 * b * b + b * b + d;
      0.0;
    }
  }

  /** Both roots of the quadratic formula make a degree-2 polynomial exactly zero. */
  lemma FormulaRootIsZero(p: Poly, sign: real)
    requires |p| == 3 && p[2] != 0.0 && (sign == 1.0 || sign == -1.0)
    ensures IsZero(SEval(p, FormulaRoot(p[2], p[1], p[0], sign)))
  {
    var s := FormulaRoot(p[2], p[1], p[0], sign);
    ThreeCoefficients(p);
    SEvalQuadratic(p[0], p[1], p[2], s);
    FormulaRootParts(p[2], p[1], p[0], sign, s, SEval([p[0], p[1], p[2]], s));
  }

  /** The multiplied-out parts of a quadratic at a formula root vanish. */
  lemma FormulaRootParts(a: real, b: real, c: real, sign: real, s: Surd, e: Surd)
    requires a != 0.0 && (sign == 1.0 || sign == -1.0) && s == FormulaRoot(a, b, c, sign)
    requires e.rational == c + s.rational * b + s.rational * s.rational * a + s.irrational * s.irrational * a * s.radicand
    requires e.irrational == s.irrational * (2.0 * s.rational * a + b)
    ensures IsZero(e)
  {
    FormulaParts(a, b, sign);
    FormulaAlgebra(a, b, c, s.rational, s.irrational);
  }

  lemma FormulaParts(a: real, b: real, sign: real)
    requires a != 0.0 && (sign == 1.0 || sign == -1.0)
    ensures 2.0 * a * (-b / (2.0 * a)) == -b
    ensures 4.0 * a * a * (sign / (2.0 * a)) * (sign / (2.0 * a)) == 1.0
  {
    var w := sign / (2.0 * a);
    assert 2.0 * a * w == sign;
    assert 4.0 * a * a * w * w == (2.0 * a * w) * (2.0 * a * w);
  }

  /** With a zero discriminant the repeated root `-b/(2a)` makes the polynomial zero. */
  lemma DoubleRootIsZero(p: Poly)
    requires |p| == 3 && p[2] != 0.0 && Discriminant(p[2], p[1], p[0]) == 0.0
    ensures IsZero(SEval(p, DoubleRoot(p[2], p[1])))
  {
    var s := DoubleRoot(p[2], p[1]);
    ThreeCoefficients(p);
    SEvalQuadratic(p[0], p[1], p[2], s);
    DoubleRootParts(p[2], p[1], p[0], s, SEval([p[0], p[1], p[2]], s));
  }

  /** The multiplied-out parts of a quadratic with Δ = 0 at `-b/(2a)` vanish. */
  lemma DoubleRootParts(a: real, b: real, c: real, s: Surd, e: Surd)
    requires a != 0.0 && Discriminant(a, b, c) == 0.0 && s == DoubleRoot(a, b)
    requires e.rational == c + s.rational * b + s.rational * s.rational * a + s.irrational * s.irrational * a * s.radicand
    requires e.irrational == s.irrational * (2.0 * s.rational * a + b)
    ensures IsZero(e)
  {
    FormulaParts(a, b, 1.0);
    FormulaAlgebra(a, b, c, s.rational, 1.0 / (2.0 * a));
  }

  /**
   * The quadratic formula in real terms: for every `t` with `t·t == Δ`,
   * `x = (-b + t) / (2a)` solves `a·x² + b·x + c == 0`.
   */
  lemma FormulaSolves(a: real, b: real, c: real, t: real)
    requires a != 0.0 && t * t == Discriminant(a, b, c)
    ensures var x := (-b + t) / (2.0 * a); a * x * x + b * x + c == 0.0
  {
    var x := (-b + t) / (2.0 * a);
    var y := 2.0 * a * x;
    assert y == -b + t;
    calc {
      4.0 * a * (a * x * x + b * x + c);
      y * y + 2.0 * b * y + 4.0 * a * c;
      (t - b) * (t - b) + 2.0 * b * (t - b) + 4.0 * a * c;
      t * t - b * b + 4.0 * a * c;
      0.0;
    }
  }
}
