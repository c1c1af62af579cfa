/**
 * The step-by-step solver: linear, quadratic and system solving, each
 * starting a fresh numbered log, and the dispatcher that routes a problem
 * type to one of them. SymPy's `factor` family and its system solver are
 * parameters; single-variable solving is the exact root finder of `Roots`.
 */
module Solver {
  import opened Wrappers
  import opened Algebra
  import opened Surds
  import opened Roots
  import opened Steps

  /**
   * The `'solution'` entry of a linear report. The source's `None` entry
   * (no root although the variable occurs) cannot arise: a polynomial of
   * degree 1 or 2 always has a root among the exact ones listed.
   */
  datatype LinearSolution =
    | AllReal            // 'all real x'
    | NoRealX            // 'no real x'
    | Root(root: Surd)   // the first root SymPy lists

  /**
   * What `factor`, `gcd_terms` and `factor_list` say about a standard form
   * that `factor` changes: whether `gcd_terms` changed it too, the constant
   * content, and the irreducible factors with their multiplicities.
   */
  datatype Factorization = Factorization(gcdChanged: bool, content: real, factors: seq<(Poly, nat)>)

  /**
   * What `sp.solve(equations, variables)` gives for a system: an exception,
   * a list of dictionaries, one dictionary, or (for a nonlinear system) a
   * list of value tuples in symbol order. `eq.subs` cannot take a tuple;
   * `subsError` is the message of the `TypeError` it raises on one.
   */
  datatype SystemAnswer =
    | Raised(message: string)
    | Listed(solutions: seq<map<string, Expr>>)
    | Single(solution: map<string, Expr>)
    | Tuples(tuples: seq<seq<Expr>>, subsError: string)

  datatype Report =
    | LinearReport(equation: Equation, variable: string, solution: LinearSolution, steps: Log, verified: bool)
    | QuadraticReport(equation: Equation, variable: string, a: real, b: real, c: real,
                      discriminant: Option<real>, solutions: seq<Surd>, steps: Log, verified: bool)
    | SystemReport(equations: seq<Equation>, variables: seq<string>, answer: Option<SystemAnswer>,
                   steps: Log, verified: bool)
    | QuadraticFailure(equation: Equation, variable: string, steps: Log, error: string)
    | SystemFailure(equations: seq<Equation>, variables: seq<string>, steps: Log, error: string)
    | UnknownProblem(error: string, steps: Log)
    /** Outside the model: not a polynomial in the variable, or of degree above 2 where roots are needed. */
    | Unmodelled(steps: Log)

  /** `equation.lhs - equation.rhs` as a polynomial in `v`, when it is one. */
  function StandardPoly(eq: Equation, v: string): (r: Option<Poly>)
    ensures r.Some? ==> Canon(r.value)
  {
    ToPoly(Sub(eq.lhs, eq.rhs), v)
  }

  /** The two sides are both defined at `x` and equal there exactly when the standard form vanishes. */
  lemma SidesMeet(eq: Equation, v: string, x: real)
    requires StandardPoly(eq, v).Some?
    ensures Value(eq.lhs, v, x).Known? && Value(eq.rhs, v, x).Known?
    ensures Value(eq.lhs, v, x) == Value(eq.rhs, v, x) <==> Eval(StandardPoly(eq, v).value, x) == 0.0
  {
    ToPolySound(Sub(eq.lhs, eq.rhs), v, x);
  }

  /** Subtracting the literal zero does not change the polynomial. */
  lemma SubtractZero(e: Expr, v: string)
    requires ToPoly(e, v).Some?
    ensures ToPoly(Sub(e, Num(0.0)), v) == ToPoly(e, v)
  {
    var p := ToPoly(e, v).value;
    assert Norm([0.0]) == [];
    assert Scale(-1.0, []) == [];
    assert RawAdd(p, []) == p;
  }

  // ---------------------------------------------------------------------------
  // Linear equations

  const LinearPreamble: seq<string> := ["Original equation", "Move all terms to left side", "Simplify"]

  /**
   * `solve_linear_equation`: solve for the first variable. An empty variable
   * dictionary raises before the `try`, so it is an error here.
   */
  function SolveLinear(eq: Equation, variables: seq<string>): (r: Result<Report>)
    ensures r.Err? <==> |variables| == 0
    ensures r.Ok? ==> Numbered(r.value.steps) && |r.value.steps| >= 3
    ensures r.Ok? ==> r.value.LinearReport? || r.value.Unmodelled?
    ensures r.Ok? ==> Descriptions(r.value.steps)[..3] == LinearPreamble
    ensures r.Ok? ==> (r.value.LinearReport? <==>
                       StandardPoly(eq, variables[0]).Some? && |StandardPoly(eq, variables[0]).value| <= 3)
    ensures r.Ok? && r.value.LinearReport? ==>
              r.value.variable == variables[0] && LinearAnswer(StandardPoly(eq, variables[0]).value, r.value)
  {
    if |variables| == 0 then Err("list index out of range")
    else
      var v := variables[0];
      var log := AddSteps([], LinearPreamble);
      var p := StandardPoly(eq, v);
      if p.None? || |p.value| > 3 then Ok(Unmodelled(log))
      else Ok(LinearConclusion(eq, v, p.value, log))
  }

  /**
   * How the outcome of a linear report reflects the standard form `p`: all
   * reals for the zero polynomial, no solution for a non-zero constant, and
   * otherwise an exact root; `verification` holds exactly in the first and
   * last cases.
   */
  predicate LinearAnswer(p: Poly, r: Report)
    requires Canon(p) && r.LinearReport?
  {
    (r.solution == AllReal <==> |p| == 0)
    && (r.solution == NoRealX <==> |p| == 1)
    && (r.solution.Root? <==> 2 <= |p|)
    && (r.solution.Root? ==> IsZero(SEval(p, r.solution.root)))
    && (|p| == 2 ==> r.solution == Root(LinearRoot(p)))
    && (r.verified <==> !r.solution.NoRealX?)
    && |r.steps| == (if r.solution.Root? then 5 else 4)
  }

  function LinearConclusion(eq: Equation, v: string, p: Poly, log: Log): (r: Report)
    requires Canon(p) && |p| <= 3 && Numbered(log) && |log| == 3
    ensures r.LinearReport? && r.variable == v && Numbered(r.steps) && |r.steps| >= 3 && r.steps[..3] == log
    ensures LinearAnswer(p, r)
  {
    var roots := SolvePoly(p).value;
    if |p| == 0 then
      LinearReport(eq, v, AllReal, AddStep(log, "Infinite solutions"), true)
    else if |roots| == 0 then
      // Only a non-zero constant has no root, so this is the contradiction case.
      LinearReport(eq, v, NoRealX, AddStep(log, "No solution"), false)
    else
      var steps := AddSteps(log, ["Solve for variable", "Verify solution"]);
      assert roots[0] in roots;
      LinearReport(eq, v, Root(roots[0]), steps, IsZero(SEval(p, roots[0])))
  }

  /** "All real x" means the two sides agree at every real. */
  lemma LinearIdentity(eq: Equation, variables: seq<string>, x: real)
    requires SolveLinear(eq, variables).Ok? && SolveLinear(eq, variables).value.LinearReport?
    requires SolveLinear(eq, variables).value.solution == AllReal
    ensures Value(eq.lhs, variables[0], x).Known?
    ensures Value(eq.lhs, variables[0], x) == Value(eq.rhs, variables[0], x)
  {
    SidesMeet(eq, variables[0], x);
  }

  /** "No real x" means the two sides differ at every real. */
  lemma LinearContradiction(eq: Equation, variables: seq<string>, x: real)
    requires SolveLinear(eq, variables).Ok? && SolveLinear(eq, variables).value.LinearReport?
    requires SolveLinear(eq, variables).value.solution == NoRealX
    ensures Value(eq.lhs, variables[0], x).Known? && Value(eq.rhs, variables[0], x).Known?
    ensures Value(eq.lhs, variables[0], x) != Value(eq.rhs, variables[0], x)
  {
    var p := StandardPoly(eq, variables[0]).value;
    SidesMeet(eq, variables[0], x);
    EvalConstant(p[0], x);
    assert p == [p[0]];
  }

  /** The reported root makes the two sides equal, for each value it can stand for. */
  lemma LinearRootSolves(eq: Equation, variables: seq<string>, x: real)
    requires SolveLinear(eq, variables).Ok? && SolveLinear(eq, variables).value.LinearReport?
    requires SolveLinear(eq, variables).value.solution.Root?
    requires Denotes(SolveLinear(eq, variables).value.solution.root, x)
    ensures Value(eq.lhs, variables[0], x).Known?
    ensures Value(eq.lhs, variables[0], x) == Value(eq.rhs, variables[0], x)
  {
    var s := SolveLinear(eq, variables).value.solution.root;
    var t: real :| t * t == s.radicand && At(s, t) == x;
    VerifiedIsRoot(StandardPoly(eq, variables[0]).value, s, t);
    SidesMeet(eq, variables[0], x);
  }

  /** A genuinely linear equation has no solution besides the reported one. */
  lemma LinearRootUnique(eq: Equation, variables: seq<string>, x: real)
    requires SolveLinear(eq, variables).Ok? && SolveLinear(eq, variables).value.LinearReport?
    requires |StandardPoly(eq, variables[0]).value| == 2
    requires Value(eq.lhs, variables[0], x) == Value(eq.rhs, variables[0], x)
    ensures SolveLinear(eq, variables).value.solution == Root(Rational(x))
  {
    SidesMeet(eq, variables[0], x);
    OnlyLinearRoot(StandardPoly(eq, variables[0]).value, x);
  }

  /** A degree-one polynomial vanishes only at its root. */
  lemma OnlyLinearRoot(p: Poly, x: real)
    requires Canon(p) && |p| == 2 && Eval(p, x) == 0.0
    ensures LinearRoot(p) == Rational(x)
  {
    EvalLinear(p, x);
    LinearSolved(p[0], p[1], x);
  }

  // ---------------------------------------------------------------------------
  // Quadratic equations

  /**
   * `solve_quadratic_equation`. A standard form whose `x²` coefficient is zero
   * is handed to the linear solver as `Eq(standard_form, 0)`, and the linear
   * solver restarts the log. When that standard form is a constant, SymPy
   * evaluates the equation to a Boolean, and the linear solver fails on it
   * after its first step. The quadratic solver catches that failure and
   * adds an error step.
   */
  function SolveQuadratic(eq: Equation, variables: seq<string>, factor: Poly -> Option<Factorization>): (r: Result<Report>)
    ensures r.Err? <==> |variables| == 0
    ensures r.Ok? ==> Numbered(r.value.steps) && |r.value.steps| >= 2
    ensures r.Ok? && r.value.QuadraticReport? ==>
              var p := StandardPoly(eq, variables[0]);
              && p.Some?
              && (r.value.a, r.value.b, r.value.c) == (Coef(p.value, 2), Coef(p.value, 1), Coef(p.value, 0))
              && r.value.a != 0.0
              && (r.value.verified <==> forall s | s in r.value.solutions :: IsZero(SEval(p.value, s)))
              && |r.value.steps| >= 4 + |r.value.solutions|
    ensures r.Ok? ==> (r.value.QuadraticFailure? <==>
                       StandardPoly(eq, variables[0]).Some? && |StandardPoly(eq, variables[0]).value| <= 1)
    ensures r.Ok? && r.value.QuadraticFailure? ==>
              && Descriptions(r.value.steps) == ["Original equation", "Error"]
              && r.value.error == BooleanHasNoSides(|StandardPoly(eq, variables[0]).value| == 0)
    ensures r.Ok? ==>
              r.value.QuadraticReport? || r.value.LinearReport? || r.value.Unmodelled? || r.value.QuadraticFailure?
  {
    if |variables| == 0 then Err("list index out of range")
    else
      var v := variables[0];
      var log := AddSteps([], ["Original equation", "Standard form"]);
      var p := StandardPoly(eq, v);
      if p.None? then Ok(Unmodelled(log))
      else
        AbcAreLowCoefficients(p.value);
        var log := AddStep(log, "Coefficients");
        if Abc(p.value).0 == 0.0 then
          if |p.value| <= 1 then
            var steps := AddSteps([], ["Original equation", "Error"]);
            Ok(QuadraticFailure(eq, v, steps, BooleanHasNoSides(|p.value| == 0)))
          else SolveLinear(Eq(Sub(eq.lhs, eq.rhs), Num(0.0)), variables)
        else Ok(Quadratic(eq, v, p.value, factor(p.value), log))
  }

  /** The `AttributeError` raised on reading `lhs` of `Eq(c, 0)` once SymPy has evaluated it to `true` or `false`. */
  function BooleanHasNoSides(holds: bool): string {
    "'" + (if holds then "BooleanTrue" else "BooleanFalse") + "' object has no attribute 'lhs'"
  }

  /** After the coefficients step of a genuine quadratic: the factor path or the formula path. */
  function Quadratic(eq: Equation, v: string, p: Poly, factored: Option<Factorization>, log: Log): (r: Report)
    requires Canon(p) && Coef(p, 2) != 0.0 && Numbered(log) && |log| == 3
    ensures Numbered(r.steps) && |r.steps| >= 3 && r.steps[..3] == log
    ensures r.QuadraticReport? || r.Unmodelled?
    ensures r.QuadraticReport? ==>
              && (r.a, r.b, r.c) == (Coef(p, 2), Coef(p, 1), Coef(p, 0)) && r.variable == v
              && (r.verified <==> forall s | s in r.solutions :: IsZero(SEval(p, s)))
              && |r.steps| >= 4 + |r.solutions|
    ensures factored.Some? ==> r == FactorPath(eq, v, p, Coef(p, 2), Coef(p, 1), Coef(p, 0), factored.value, log)
    ensures factored.None? ==> r == FormulaPath(eq, v, p, Coef(p, 2), Coef(p, 1), Coef(p, 0), log)
  {
    var a, b, c := Coef(p, 2), Coef(p, 1), Coef(p, 0);
    if factored.Some? then FactorPath(eq, v, p, a, b, c, factored.value, log)
    else FormulaPath(eq, v, p, a, b, c, log)
  }

  /** All listed roots make `p` exactly zero: the report's `verification`. */
  predicate AllVanish(p: Poly, roots: seq<Surd>) {
    forall s | s in roots :: IsZero(SEval(p, s))
  }

  /** The numbered step labels `prefix + "1"`, ..., `prefix + "n"` of an `enumerate` loop. */
  function Labels(prefix: string, n: nat): (r: seq<string>)
    ensures |r| == n
    ensures forall i | 0 <= i < n :: r[i] == prefix + NatToString(i + 1)
  {
    seq(n, i requires 0 <= i < n => prefix + NatToString(i + 1))
  }

  /** The common end of both quadratic paths: one verification step per root. */
  function Conclude(eq: Equation, v: string, p: Poly, a: real, b: real, c: real, discriminant: Option<real>,
                    roots: seq<Surd>, log: Log): (r: Report)
    requires Numbered(log)
    ensures r.QuadraticReport? && Numbered(r.steps) && |r.steps| == |log| + |roots|
    ensures r.steps[..|log|] == log && r.solutions == roots && r.discriminant == discriminant
    ensures (r.a, r.b, r.c) == (a, b, c) && r.variable == v
    ensures r.verified <==> forall s | s in roots :: IsZero(SEval(p, s))
  {
    QuadraticReport(eq, v, a, b, c, discriminant, roots, AddSteps(log, Labels("Verify solution ", |roots|)), AllVanish(p, roots))
  }

  /** `xs` repeated `n` times, as `for _ in range(exp): roots.extend(sol)` builds it. */
  function Repeat(xs: seq<Surd>, n: nat): (r: seq<Surd>)
    ensures |r| == n * |xs|
    ensures forall s :: s in r <==> n > 0 && s in xs
    ensures forall i | 0 <= i < |r| :: r[i] == xs[i % |xs|]
  {
    if n == 0 then []
    else
      var rest := Repeat(xs, n - 1);
      assert forall i | 0 <= i < |xs + rest| :: (xs + rest)[i] == xs[i % |xs|] by {
        if |xs| > 0 {
          RepeatStep(xs, rest);
        }
      }
      xs + rest
  }

  /** One more copy in front keeps every position on its element. */
  lemma RepeatStep(xs: seq<Surd>, rest: seq<Surd>)
    requires |xs| > 0
    requires forall i | 0 <= i < |rest| :: rest[i] == xs[i % |xs|]
    ensures forall i | 0 <= i < |xs + rest| :: (xs + rest)[i] == xs[i % |xs|]
  {
    forall i | 0 <= i < |xs + rest| ensures (xs + rest)[i] == xs[i % |xs|] {
      if i >= |xs| {
        ModShift(i, |xs|);
      }
    }
  }

  lemma ModShift(i: int, m: int)
    requires 0 < m <= i
    ensures (i - m) % m == i % m
  {
    var q, r := (i - m) / m, (i - m) % m;
    assert i == m * (q + 1) + r;
    ModUnique(i, m, q + 1, r);
  }

  /** Euclidean division has one remainder. */
  lemma ModUnique(i: int, m: int, k: int, r: int)
    requires m > 0 && 0 <= r < m && i == m * k + r
    ensures i % m == r
  {
    var q := i / m;
    assert m * (q - k) == r - i % m;
    SmallMultiple(m, q - k, r - i % m);
  }

  lemma SmallMultiple(m: int, d: int, e: int)
    requires m > 0 && m * d == e && -m < e < m
    ensures d == 0
  {
    MulMono(m, d);
  }

  lemma MulMono(m: int, d: int)
    requires m > 0
    ensures d >= 1 ==> m * d >= m
    ensures d <= -1 ==> m * d <= -m
  {
  }

  /** Number of "Solve factor" steps: one per unit of multiplicity. */
  function TotalMultiplicity(fs: seq<(Poly, nat)>): nat {
    if |fs| == 0 then 0 else fs[0].1 + TotalMultiplicity(fs[1..])
  }

  /** `s` is among the roots of a factor that the loop visits at least once. */
  predicate RootOfFactor(f: (Poly, nat), s: Surd) {
    f.1 > 0 && |Norm(f.0)| <= 3 && s in SolvePoly(Norm(f.0)).value
  }

  /** The roots the factor loop collects, or `None` when a factor is beyond degree 2. */
  function FactorRoots(fs: seq<(Poly, nat)>): (r: Option<seq<Surd>>)
    ensures r.Some? <==> forall k | 0 <= k < |fs| :: fs[k].1 == 0 || |Norm(fs[k].0)| <= 3
    ensures r.Some? ==> forall s :: s in r.value <==> exists k | 0 <= k < |fs| :: RootOfFactor(fs[k], s)
  {
    if |fs| == 0 then Some([])
    else
      var n := fs[0].1;
      var here := FactorSolutions(fs[0]);
      var rest := FactorRoots(fs[1..]);
      if here.None? || rest.None? then
        assert here.None? ==> !(fs[0].1 == 0 || |Norm(fs[0].0)| <= 3);
        assert rest.None? ==> exists k | 1 <= k < |fs| :: !(fs[k].1 == 0 || |Norm(fs[k].0)| <= 3) by {
          if rest.None? {
            var j :| 0 <= j < |fs[1..]| && !(fs[1..][j].1 == 0 || |Norm(fs[1..][j].0)| <= 3);
            assert fs[j + 1] == fs[1..][j];
          }
        }
        None
      else
        var r := Repeat(here.value, n) + rest.value;
        assert forall s :: s in r <==> exists k | 0 <= k < |fs| :: RootOfFactor(fs[k], s) by {
          forall s
            ensures s in r <==> exists k | 0 <= k < |fs| :: RootOfFactor(fs[k], s)
          {
            if s in rest.value {
              var j :| 0 <= j < |fs[1..]| && RootOfFactor(fs[1..][j], s);
              assert fs[j + 1] == fs[1..][j];
            }
            if exists k | 0 <= k < |fs| :: RootOfFactor(fs[k], s) {
              var k :| 0 <= k < |fs| && RootOfFactor(fs[k], s);
              if k > 0 {
                assert fs[1..][k - 1] == fs[k];
              }
            }
          }
        }
        Some(r)
  }

  /** `sp.solve(factor, v)` for a factor the loop visits; nothing for one it skips. */
  function FactorSolutions(f: (Poly, nat)): Option<seq<Surd>> {
    if f.1 == 0 then Some([]) else SolvePoly(Norm(f.0))
  }

  /** Σ multiplicity · number of roots, over the factors. */
  function RootCount(fs: seq<(Poly, nat)>): nat {
    if |fs| == 0 then 0
    else (if FactorSolutions(fs[0]).Some? then fs[0].1 * |FactorSolutions(fs[0]).value| else 0) + RootCount(fs[1..])
  }

  /** A root list taken `n` times over, when there is one. */
  function Multiply(o: Option<seq<Surd>>, n: nat): Option<seq<Surd>> {
    if o.Some? then Some(Repeat(o.value, n)) else None
  }

  /** Two root lists one after the other, when both exist. */
  function Append(a: Option<seq<Surd>>, b: Option<seq<Surd>>): Option<seq<Surd>> {
    if a.Some? && b.Some? then Some(a.value + b.value) else None
  }

  lemma AppendAssoc(a: Option<seq<Surd>>, b: Option<seq<Surd>>, c: Option<seq<Surd>>)
    ensures Append(a, Append(b, c)) == Append(Append(a, b), c)
  {
    if a.Some? && b.Some? && c.Some? {
      assert a.value + (b.value + c.value) == (a.value + b.value) + c.value;
    }
  }

  lemma AppendUnit(a: Option<seq<Surd>>)
    ensures Append(a, Some([])) == a && Append(Some([]), a) == a
  {
    if a.Some? {
      assert a.value + [] == a.value && [] + a.value == a.value;
    }
  }

  /** One turn of the loop: the first factor's roots, `exp` times over, before the rest. */
  lemma FactorRootsCons(fs: seq<(Poly, nat)>)
    requires |fs| > 0
    ensures FactorRoots(fs) == Append(Multiply(FactorSolutions(fs[0]), fs[0].1), FactorRoots(fs[1..]))
  {
  }

  /**
   * The loop in order: after the factors `fs`, the factor `f` adds its own
   * roots `f.1` times over at the end of the list.
   */
  lemma {:induction false} FactorRootsSnoc(fs: seq<(Poly, nat)>, f: (Poly, nat))
    ensures FactorRoots(fs + [f]) == Append(FactorRoots(fs), Multiply(FactorSolutions(f), f.1))
    decreases |fs|
  {
    var all := fs + [f];
    var last := Multiply(FactorSolutions(f), f.1);
    FactorRootsCons(all);
    if |fs| == 0 {
      assert all[0] == f && all[1..] == [];
      AppendUnit(last);
    } else {
      assert all[0] == fs[0] && all[1..] == fs[1..] + [f];
      FactorRootsSnoc(fs[1..], f);
      FactorRootsCons(fs);
      AppendAssoc(Multiply(FactorSolutions(fs[0]), fs[0].1), FactorRoots(fs[1..]), last);
    }
  }

  /** As many roots are collected as multiplicity times roots, summed over the factors. */
  lemma {:induction false} FactorRootsCount(fs: seq<(Poly, nat)>)
    requires FactorRoots(fs).Some?
    ensures |FactorRoots(fs).value| == RootCount(fs)
    decreases |fs|
  {
    if |fs| > 0 {
      FactorRootsCount(fs[1..]);
    }
  }

  /** The factor path: optional GCD step, the full factorization, a step per factor solved. */
  function FactorPath(eq: Equation, v: string, p: Poly, a: real, b: real, c: real, f: Factorization, log: Log): (r: Report)
    requires Numbered(log) && |log| == 3
    ensures Numbered(r.steps) && |r.steps| >= 3 && r.steps[..3] == log
    ensures r.Unmodelled? <==> FactorRoots(f.factors).None?
    ensures r.QuadraticReport? ==>
              && r.discriminant == None
              && r.solutions == FactorRoots(f.factors).value
              && (r.a, r.b, r.c) == (a, b, c) && r.variable == v
              && (r.verified <==> forall s | s in r.solutions :: IsZero(SEval(p, s)))
              && |r.steps| == 4 + (if f.gcdChanged then 1 else 0) + TotalMultiplicity(f.factors) + |r.solutions|
  {
    var log1 := if f.gcdChanged then AddStep(log, "Factor out GCD") else log;
    var log2 := AddStep(log1, "Full factorization");
    assert log2[..3] == log;
    var roots := FactorRoots(f.factors);
    if roots.None? then Unmodelled(log2)
    else
      var solved := AddSteps(log2, seq(TotalMultiplicity(f.factors), _ => "Solve factor"));
      assert solved[..3] == log;
      var r := Conclude(eq, v, p, a, b, c, None, roots.value, solved);
      assert r.steps[..3] == solved[..|solved|][..3];
      r
  }

  /** The quadratic-formula path, taken when `factor` leaves the standard form unchanged. */
  function FormulaPath(eq: Equation, v: string, p: Poly, a: real, b: real, c: real, log: Log): (r: Report)
    requires Canon(p) && a != 0.0 && Numbered(log) && |log| == 3
    ensures Numbered(r.steps) && |r.steps| >= 3 && r.steps[..3] == log
    ensures r.QuadraticReport? || r.Unmodelled?
    ensures r.Unmodelled? <==> Discriminant(a, b, c) < 0.0 && |p| > 3
    ensures r.QuadraticReport? ==>
              && r.discriminant == Some(Discriminant(a, b, c))
              && (r.a, r.b, r.c) == (a, b, c) && r.variable == v
              && (r.verified <==> forall s | s in r.solutions :: IsZero(SEval(p, s)))
    ensures r.QuadraticReport? && Discriminant(a, b, c) > 0.0 ==>
              r.solutions == [FormulaRoot(a, b, c, 1.0), FormulaRoot(a, b, c, -1.0)] && |r.steps| == 9
    ensures r.QuadraticReport? && Discriminant(a, b, c) == 0.0 ==>
              r.solutions == [DoubleRoot(a, b)] && |r.steps| == 7
    ensures r.QuadraticReport? && Discriminant(a, b, c) < 0.0 ==>
              r.solutions == SolvePoly(p).value && |r.steps| == 7 + |r.solutions|
    ensures r.QuadraticReport? ==> |r.steps| >= 4 + |r.solutions|
  {
    var d := Discriminant(a, b, c);
    var log := AddSteps(log, ["Method", "Discriminant"]);
    if d > 0.0 then
      var r := Conclude(eq, v, p, a, b, c, Some(d), [FormulaRoot(a, b, c, 1.0), FormulaRoot(a, b, c, -1.0)],
                        AddSteps(log, ["Two real solutions", ""]));
      assert r.steps[..3] == log[..3];
      r
    else if d == 0.0 then
      var r := Conclude(eq, v, p, a, b, c, Some(d), [DoubleRoot(a, b)], AddStep(log, "One real solution (repeated root)"));
      assert r.steps[..3] == log[..3];
      r
    else
      var log := AddStep(log, "Complex solutions");
      var roots := SolvePoly(p);
      if roots.None? then
        assert log[..3] == log[..5][..3];
        Unmodelled(log)
      else
        var r := Conclude(eq, v, p, a, b, c, Some(d), roots.value, AddStep(log, "Complex solutions"));
        assert r.steps[..3] == log[..3];
        r
  }

  /**
   * With a zero `x²` coefficient and a non-constant standard form the
   * quadratic solver gives exactly the linear solver's report on the same
   * polynomial.
   */
  lemma QuadraticDegenerate(eq: Equation, variables: seq<string>, factor: Poly -> Option<Factorization>)
    requires |variables| > 0 && StandardPoly(eq, variables[0]).Some?
    requires Coef(StandardPoly(eq, variables[0]).value, 2) == 0.0 && |StandardPoly(eq, variables[0]).value| >= 2
    ensures SolveQuadratic(eq, variables, factor) == SolveLinear(Eq(Sub(eq.lhs, eq.rhs), Num(0.0)), variables)
    ensures StandardPoly(Eq(Sub(eq.lhs, eq.rhs), Num(0.0)), variables[0]) == StandardPoly(eq, variables[0])
  {
    AbcAreLowCoefficients(StandardPoly(eq, variables[0]).value);
    SubtractZero(Sub(eq.lhs, eq.rhs), variables[0]);
  }

  /** Without a factorization, a genuine quadratic takes the formula path and every root checks out. */
  lemma QuadraticFormulaVerified(eq: Equation, variables: seq<string>, factor: Poly -> Option<Factorization>)
    requires |variables| > 0 && StandardPoly(eq, variables[0]).Some?
    requires |StandardPoly(eq, variables[0]).value| == 3
    requires factor(StandardPoly(eq, variables[0]).value).None?
    ensures SolveQuadratic(eq, variables, factor).Ok?
    ensures var r := SolveQuadratic(eq, variables, factor).value;
            var p := StandardPoly(eq, variables[0]).value;
            && r.QuadraticReport?
            && r.discriminant == Some(Discriminant(p[2], p[1], p[0]))
            && r.verified
            && |r.solutions| == (if Discriminant(p[2], p[1], p[0]) == 0.0 then 1 else 2)
            && (Discriminant(p[2], p[1], p[0]) == 0.0 ==> DoubleRoot(p[2], p[1]) in r.solutions)
            && (Discriminant(p[2], p[1], p[0]) != 0.0 ==> FormulaRoot(p[2], p[1], p[0], 1.0) in r.solutions)
            && (Discriminant(p[2], p[1], p[0]) != 0.0 ==> FormulaRoot(p[2], p[1], p[0], -1.0) in r.solutions)
  {
    var p := StandardPoly(eq, variables[0]).value;
    QuadraticTakesFormula(eq, variables, factor);
    FormulaPathVerified(eq, variables[0], p, QuadraticLog);
  }

  /** The log the quadratic solver has written when it chooses a path. */
  const QuadraticLog: Log := AddStep(AddSteps([], ["Original equation", "Standard form"]), "Coefficients")

  lemma QuadraticTakesFormula(eq: Equation, variables: seq<string>, factor: Poly -> Option<Factorization>)
    requires |variables| > 0 && StandardPoly(eq, variables[0]).Some?
    requires |StandardPoly(eq, variables[0]).value| == 3
    requires factor(StandardPoly(eq, variables[0]).value).None?
    ensures Numbered(QuadraticLog) && |QuadraticLog| == 3
    ensures var p := StandardPoly(eq, variables[0]).value;
            SolveQuadratic(eq, variables, factor) == Ok(FormulaPath(eq, variables[0], p, p[2], p[1], p[0], QuadraticLog))
  {
    AbcAreLowCoefficients(StandardPoly(eq, variables[0]).value);
  }

  /** For a genuine quadratic the formula path reports every root and verifies all of them. */
  lemma FormulaPathVerified(eq: Equation, v: string, p: Poly, log: Log)
    requires Canon(p) && |p| == 3 && Numbered(log) && |log| == 3
    ensures var r := FormulaPath(eq, v, p, p[2], p[1], p[0], log);
            var d := Discriminant(p[2], p[1], p[0]);
            && r.QuadraticReport?
            && r.discriminant == Some(d)
            && r.verified
            && |r.solutions| == (if d == 0.0 then 1 else 2)
            && (d == 0.0 ==> DoubleRoot(p[2], p[1]) in r.solutions)
            && (d != 0.0 ==> FormulaRoot(p[2], p[1], p[0], 1.0) in r.solutions)
            && (d != 0.0 ==> FormulaRoot(p[2], p[1], p[0], -1.0) in r.solutions)
  {
    var d := Discriminant(p[2], p[1], p[0]);
    if d > 0.0 {
      TwoRealRootsVerified(eq, v, p, log);
    } else if d == 0.0 {
      RepeatedRootVerified(eq, v, p, log);
    } else {
      ComplexRootsVerified(eq, v, p, log);
    }
  }

  lemma TwoRealRootsVerified(eq: Equation, v: string, p: Poly, log: Log)
    requires Canon(p) && |p| == 3 && Numbered(log) && |log| == 3
    requires Discriminant(p[2], p[1], p[0]) > 0.0
    ensures var r := FormulaPath(eq, v, p, p[2], p[1], p[0], log);
            && r.QuadraticReport? && r.verified
            && r.solutions == [FormulaRoot(p[2], p[1], p[0], 1.0), FormulaRoot(p[2], p[1], p[0], -1.0)]
  {
    FormulaRootIsZero(p, 1.0);
    FormulaRootIsZero(p, -1.0);
  }

  lemma RepeatedRootVerified(eq: Equation, v: string, p: Poly, log: Log)
    requires Canon(p) && |p| == 3 && Numbered(log) && |log| == 3
    requires Discriminant(p[2], p[1], p[0]) == 0.0
    ensures var r := FormulaPath(eq, v, p, p[2], p[1], p[0], log);
            r.QuadraticReport? && r.verified && r.solutions == [DoubleRoot(p[2], p[1])]
  {
    DoubleRootIsZero(p);
  }

  lemma ComplexRootsVerified(eq: Equation, v: string, p: Poly, log: Log)
    requires Canon(p) && |p| == 3 && Numbered(log) && |log| == 3
    requires Discriminant(p[2], p[1], p[0]) < 0.0
    ensures var r := FormulaPath(eq, v, p, p[2], p[1], p[0], log);
            && r.QuadraticReport? && r.verified
            && r.solutions == [FormulaRoot(p[2], p[1], p[0], -1.0), FormulaRoot(p[2], p[1], p[0], 1.0)]
  {
    assert SolvePoly(p) == Some(QuadraticRoots(p));
  }

  /** On the formula path every real the reported roots stand for solves the equation. */
  lemma QuadraticRootsSolve(eq: Equation, variables: seq<string>, factor: Poly -> Option<Factorization>, s: Surd, x: real)
    requires |variables| > 0 && StandardPoly(eq, variables[0]).Some?
    requires |StandardPoly(eq, variables[0]).value| == 3
    requires factor(StandardPoly(eq, variables[0]).value).None?
    requires SolveQuadratic(eq, variables, factor).Ok?
    requires SolveQuadratic(eq, variables, factor).value.QuadraticReport?
    requires s in SolveQuadratic(eq, variables, factor).value.solutions && Denotes(s, x)
    ensures Value(eq.lhs, variables[0], x).Known?
    ensures Value(eq.lhs, variables[0], x) == Value(eq.rhs, variables[0], x)
  {
    var p := StandardPoly(eq, variables[0]).value;
    QuadraticFormulaVerified(eq, variables, factor);
    var t: real :| t * t == s.radicand && At(s, t) == x;
    VerifiedIsRoot(p, s, t);
    SidesMeet(eq, variables[0], x);
  }

  /** On the formula path every real solution of the equation is among the reported roots. */
  lemma QuadraticRootsComplete(eq: Equation, variables: seq<string>, factor: Poly -> Option<Factorization>, x: real)
    requires |variables| > 0 && StandardPoly(eq, variables[0]).Some?
    requires |StandardPoly(eq, variables[0]).value| == 3
    requires factor(StandardPoly(eq, variables[0]).value).None?
    requires Value(eq.lhs, variables[0], x) == Value(eq.rhs, variables[0], x)
    ensures SolveQuadratic(eq, variables, factor).Ok?
    ensures SolveQuadratic(eq, variables, factor).value.QuadraticReport?
    ensures exists s | s in SolveQuadratic(eq, variables, factor).value.solutions :: Denotes(s, x)
    ensures var p := StandardPoly(eq, variables[0]).value;
            && ListedRoot(p[2], p[1], p[0], x) in SolveQuadratic(eq, variables, factor).value.solutions
            && Denotes(ListedRoot(p[2], p[1], p[0], x), x)
  {
    var p := StandardPoly(eq, variables[0]).value;
    QuadraticFormulaVerified(eq, variables, factor);
    SidesMeet(eq, variables[0], x);
    FormulaDenotesRoot(p, x);
    ListedRootReported(p, SolveQuadratic(eq, variables, factor).value.solutions, x);
  }

  /** A list holding the repeated root, or both formula roots, holds the listed root of every real. */
  lemma ListedRootReported(p: Poly, solutions: seq<Surd>, x: real)
    requires |p| == 3 && p[2] != 0.0
    requires Discriminant(p[2], p[1], p[0]) == 0.0 ==> DoubleRoot(p[2], p[1]) in solutions
    requires Discriminant(p[2], p[1], p[0]) != 0.0 ==> FormulaRoot(p[2], p[1], p[0], 1.0) in solutions
    requires Discriminant(p[2], p[1], p[0]) != 0.0 ==> FormulaRoot(p[2], p[1], p[0], -1.0) in solutions
    ensures ListedRoot(p[2], p[1], p[0], x) in solutions
  {
  }

  /** `factor_list` is faithful: `p(x) == content · Π base(x)^mult` at every real. */
  ghost predicate Faithful(p: Poly, f: Factorization) {
    forall x: real :: Eval(p, x) == f.content * Product(f.factors, x)
  }

  function Product(fs: seq<(Poly, nat)>, x: real): real {
    if |fs| == 0 then 1.0 else Power(Eval(fs[0].0, x), fs[0].1) * Product(fs[1..], x)
  }

  lemma {:induction false} ProductVanishes(fs: seq<(Poly, nat)>, k: nat, x: real)
    requires k < |fs| && fs[k].1 > 0 && Eval(fs[k].0, x) == 0.0
    ensures Product(fs, x) == 0.0
  {
    if k == 0 {
      assert Power(Eval(fs[0].0, x), fs[0].1) == 0.0;
    } else {
      assert fs[1..][k - 1] == fs[k];
      ProductVanishes(fs[1..], k - 1, x);
    }
  }

  /** With a faithful factorization, every real a collected root stands for is a root of `p`. */
  lemma FactorRootsVanish(p: Poly, f: Factorization, s: Surd, x: real)
    requires Faithful(p, f) && FactorRoots(f.factors).Some? && s in FactorRoots(f.factors).value && Denotes(s, x)
    ensures Eval(p, x) == 0.0
  {
    var k :| 0 <= k < |f.factors| && RootOfFactor(f.factors[k], s);
    var base := Norm(f.factors[k].0);
    var t: real :| t * t == s.radicand && At(s, t) == x;
    VerifiedIsRoot(base, s, t);
    EvalNorm(f.factors[k].0, x);
    ProductVanishes(f.factors, k, x);
    FaithfulAt(p, f, x);
  }

  lemma FaithfulAt(p: Poly, f: Factorization, x: real)
    requires Faithful(p, f) && Product(f.factors, x) == 0.0
    ensures Eval(p, x) == 0.0
  {
    assert Eval(p, x) == f.content * Product(f.factors, x);
  }

  /** With a faithful factorization, every real a factor-path root stands for solves the equation. */
  lemma FactorRootsSolve(eq: Equation, variables: seq<string>, factor: Poly -> Option<Factorization>, s: Surd, x: real)
    requires |variables| > 0 && StandardPoly(eq, variables[0]).Some?
    requires Coef(StandardPoly(eq, variables[0]).value, 2) != 0.0
    requires factor(StandardPoly(eq, variables[0]).value).Some?
    requires Faithful(StandardPoly(eq, variables[0]).value, factor(StandardPoly(eq, variables[0]).value).value)
    requires SolveQuadratic(eq, variables, factor).Ok?
    requires SolveQuadratic(eq, variables, factor).value.QuadraticReport?
    requires s in SolveQuadratic(eq, variables, factor).value.solutions && Denotes(s, x)
    ensures Value(eq.lhs, variables[0], x).Known?
    ensures Value(eq.lhs, variables[0], x) == Value(eq.rhs, variables[0], x)
  {
    var p := StandardPoly(eq, variables[0]).value;
    var f := factor(p).value;
    AbcAreLowCoefficients(p);
    assert SolveQuadratic(eq, variables, factor).value.solutions == FactorRoots(f.factors).value;
    FactorRootsVanish(p, f, s, x);
    SidesMeet(eq, variables[0], x);
  }

  // ---------------------------------------------------------------------------
  // Systems

  /** "Verify equation i, solution j". */
  function PairLabel(i: nat, j: nat): string {
    "Verify equation " + NatToString(i + 1) + ", solution " + NatToString(j + 1)
  }

  /**
   * The labels of the nested verification loops, equation by equation and,
   * within one, solution by solution: position `i·k + j` names equation
   * `i + 1` and solution `j + 1`.
   */
  function PairLabels(n: nat, k: nat): (r: seq<string>)
    ensures |r| == n * k
  {
    if n == 0 then []
    else PairLabels(n - 1, k) + Labels("Verify equation " + NatToString(n) + ", solution ", k)
  }

  /** Every position of the nested loops carries its own equation and solution numbers. */
  lemma {:induction false} PairLabelsIndex(n: nat, k: nat)
    ensures forall i, j | 0 <= i < n && 0 <= j < k :: i * k + j < |PairLabels(n, k)| && PairLabels(n, k)[i * k + j] == PairLabel(i, j)
  {
    forall i, j | 0 <= i < n && 0 <= j < k
      ensures i * k + j < |PairLabels(n, k)| && PairLabels(n, k)[i * k + j] == PairLabel(i, j)
    {
      PairLabelAt(n, k, i, j);
    }
  }

  lemma {:induction false} PairLabelAt(n: nat, k: nat, i: nat, j: nat)
    requires i < n && j < k
    ensures i * k + j < |PairLabels(n, k)| && PairLabels(n, k)[i * k + j] == PairLabel(i, j)
    decreases n
  {
    var front := PairLabels(n - 1, k);
    var block := Labels("Verify equation " + NatToString(n) + ", solution ", k);
    var m, idx := |front|, i * k + j;
    assert m + k == n * k;
    if i < n - 1 {
      PairLabelAt(n - 1, k, i, j);
      assert idx < m;
      assert (front + block)[idx] == front[idx];
    } else {
      assert idx == m + j;
      assert (front + block)[idx] == block[j];
    }
  }

  /** Python's truth value of an answer: an empty list or dictionary is false. */
  predicate Empty(a: SystemAnswer) {
    match a
    case Raised(_) => false
    case Listed(ls) => |ls| == 0
    case Single(m) => |m| == 0
    case Tuples(ts, _) => |ts| == 0
  }

  /**
   * `solve_system_of_equations`. A non-empty answer is reported as verified
   * whatever the substitution steps would show, unless a substitution raises;
   * an empty one is "No solution".
   */
  function SolveSystem(eqs: seq<Equation>, variables: seq<string>,
                       solve: (seq<Equation>, seq<string>) -> SystemAnswer): (r: Report)
    ensures Numbered(r.steps) && |r.steps| >= 2 && r.steps[0].description == "Original system"
    ensures r.SystemReport? || r.SystemFailure?
    ensures r.SystemFailure? <==> solve(eqs, variables).Raised? || (solve(eqs, variables).Tuples? && !Empty(solve(eqs, variables)) && |eqs| > 0)
    ensures r.SystemReport? ==> (r.verified <==> !Empty(solve(eqs, variables)))
    ensures r.SystemReport? ==> r.answer == if Empty(solve(eqs, variables)) then None else Some(solve(eqs, variables))
    ensures match solve(eqs, variables)
            case Raised(m) => r.SystemFailure? && r.error == m && |r.steps| == 2
            case Listed(ls) => |r.steps| == if |ls| == 0 then 2 else 2 + |ls| + |eqs| * |ls|
            case Single(m) => |r.steps| == if |m| == 0 then 2 else 2 + |eqs|
            case Tuples(ts, e) =>
              && |r.steps| == (if |ts| == 0 then 2 else if |eqs| == 0 then 2 + |ts| else 3 + |ts|)
              && (r.SystemFailure? ==> r.error == e)
  {
    var answer := solve(eqs, variables);
    match answer
    case Raised(message) =>
      SystemFailure(eqs, variables, AddSteps([], ["Original system", "Error"]), message)
    case Listed(solutions) =>
      if |solutions| == 0 then NoSystemSolution(eqs, variables)
      else
        var labels := ["Original system", "Solutions"] + Labels("Solution ", |solutions|)
                      + PairLabels(|eqs|, |solutions|);
        SystemReport(eqs, variables, Some(answer), AddSteps([], labels), true)
    case Single(solution) =>
      if |solution| == 0 then NoSystemSolution(eqs, variables)
      else
        var labels := ["Original system", "Solution"] + Labels("Verify equation ", |eqs|);
        SystemReport(eqs, variables, Some(answer), AddSteps([], labels), true)
    case Tuples(tuples, subsError) =>
      if |tuples| == 0 then NoSystemSolution(eqs, variables)
      else
        var labels := ["Original system", "Solutions"] + Labels("Solution ", |tuples|);
        if |eqs| == 0 then SystemReport(eqs, variables, Some(answer), AddSteps([], labels), true)
        else SystemFailure(eqs, variables, AddSteps([], labels + ["Error"]), subsError)
  }

  /**
   * A non-empty list answer is logged solution by solution: "Solutions",
   * then "Solution 1", ..., "Solution k", whether the substitutions that
   * follow succeed or raise.
   */
  lemma SolutionSteps(eqs: seq<Equation>, variables: seq<string>, solve: (seq<Equation>, seq<string>) -> SystemAnswer)
    requires solve(eqs, variables).Listed? || solve(eqs, variables).Tuples?
    requires !Empty(solve(eqs, variables))
    ensures var r := SolveSystem(eqs, variables, solve);
            var a := solve(eqs, variables);
            var k := if a.Listed? then |a.solutions| else |a.tuples|;
            2 + k <= |r.steps| && Descriptions(r.steps)[1..2 + k] == ["Solutions"] + Labels("Solution ", k)
  {
    if solve(eqs, variables).Listed? {
      ListedSteps(eqs, variables, solve);
    } else {
      TupleSteps(eqs, variables, solve);
    }
  }

  lemma ListedSteps(eqs: seq<Equation>, variables: seq<string>, solve: (seq<Equation>, seq<string>) -> SystemAnswer)
    requires solve(eqs, variables).Listed? && |solve(eqs, variables).solutions| > 0
    ensures var r := SolveSystem(eqs, variables, solve);
            var k := |solve(eqs, variables).solutions|;
            2 + k <= |r.steps| && Descriptions(r.steps)[1..2 + k] == ["Solutions"] + Labels("Solution ", k)
  {
    var k := |solve(eqs, variables).solutions|;
    var labels := ["Original system", "Solutions"] + Labels("Solution ", k) + PairLabels(|eqs|, k);
    FreshLogDescriptions(labels);
    assert labels[1..2 + k] == ["Solutions"] + Labels("Solution ", k);
  }

  lemma TupleSteps(eqs: seq<Equation>, variables: seq<string>, solve: (seq<Equation>, seq<string>) -> SystemAnswer)
    requires solve(eqs, variables).Tuples? && |solve(eqs, variables).tuples| > 0
    ensures var r := SolveSystem(eqs, variables, solve);
            var k := |solve(eqs, variables).tuples|;
            2 + k <= |r.steps| && Descriptions(r.steps)[1..2 + k] == ["Solutions"] + Labels("Solution ", k)
  {
    var k := |solve(eqs, variables).tuples|;
    var labels := ["Original system", "Solutions"] + Labels("Solution ", k);
    FreshLogDescriptions(labels);
    FreshLogDescriptions(labels + ["Error"]);
    assert (labels + ["Error"])[1..2 + k] == labels[1..] == ["Solutions"] + Labels("Solution ", k);
  }

  function NoSystemSolution(eqs: seq<Equation>, variables: seq<string>): (r: Report)
    ensures r.SystemReport? && r.answer.None? && !r.verified
    ensures Descriptions(r.steps) == ["Original system", "No solution"] && Numbered(r.steps)
  {
    SystemReport(eqs, variables, None, AddSteps([], ["Original system", "No solution"]), false)
  }

  // ---------------------------------------------------------------------------
  // Dispatch

  /** The equations handed to `solve_problem`: one equation, or a list of them. */
  datatype Problem = One(equation: Equation) | Many(equations: seq<Equation>)

  /**
   * `solve_problem`: route by problem type. A single equation given where a
   * list is expected, or the other way round, raises in the chosen solver
   * before its `try`.
   */
  function SolveProblem(kind: string, problem: Problem, variables: seq<string>,
                        factor: Poly -> Option<Factorization>,
                        solve: (seq<Equation>, seq<string>) -> SystemAnswer): (r: Result<Report>)
    ensures kind != "linear" && kind != "quadratic" && kind != "system" ==>
              r == Ok(UnknownProblem("Unknown problem type: " + kind, []))
    ensures kind == "system" ==> (r.Ok? <==> problem.Many?)
    ensures (kind == "linear" || kind == "quadratic") ==> (r.Ok? <==> problem.One? && |variables| > 0)
    ensures r.Ok? && (kind == "linear" || kind == "quadratic" || kind == "system") ==>
              Numbered(r.value.steps) && |r.value.steps| >= 2
    ensures r.Ok? && kind == "linear" ==> r.value.LinearReport? || r.value.Unmodelled?
    ensures r.Ok? && kind == "system" ==> r.value.SystemReport? || r.value.SystemFailure?
  {
    if kind == "linear" then
      match problem
      case One(eq) => SolveLinear(eq, variables)
      case Many(_) => if |variables| == 0 then Err("list index out of range") else Err("'list' object has no attribute 'lhs'")
    else if kind == "quadratic" then
      match problem
      case One(eq) => SolveQuadratic(eq, variables, factor)
      case Many(_) => if |variables| == 0 then Err("list index out of range") else Err("'list' object has no attribute 'lhs'")
    else if kind == "system" then
      match problem
      case One(_) => Err("'Equality' object is not iterable")
      case Many(eqs) => Ok(SolveSystem(eqs, variables, solve))
    else Ok(UnknownProblem("Unknown problem type: " + kind, []))
  }
}
