/** Easing curves with endpoints pinned at (0,0) and (1,1): the basis
    functions of the quadratic and cubic namespaces, and the fixed-iteration
    bisection that inverts the x basis. Numbers are exact reals. */
module BezierCurve {

  /** A control point (x, y). */
  datatype Point = Point(x: real, y: real)

  // ---------------------------------------------------------------------
  // Quadratic basis: (1-t)^2*P0 + 2(1-t)t*P1 + t^2*P2 with P0=0 and P2=1
  // ---------------------------------------------------------------------

  function QuadraticSolveX(p1: Point, t: real): (x: real)
    ensures t == 0.0 ==> x == 0.0
    ensures t == 1.0 ==> x == 1.0
  {
    2.0 * (1.0 - t) * t * p1.x + t * t
  }

  function QuadraticSolveY(p1: Point, t: real): (y: real)
    ensures t == 0.0 ==> y == 0.0
    ensures t == 1.0 ==> y == 1.0
  {
    2.0 * (1.0 - t) * t * p1.y + t * t
  }

  // ---------------------------------------------------------------------
  // Cubic basis: 3(1-t)^2 t*P1 + 3(1-t)t^2*P2 + t^3 (P0=0, P3=1)
  // ---------------------------------------------------------------------

  function CubicSolveX(p1: Point, p2: Point, t: real): (x: real)
    ensures t == 0.0 ==> x == 0.0
    ensures t == 1.0 ==> x == 1.0
  {
    3.0 * (1.0 - t) * (1.0 - t) * t * p1.x + 3.0 * (1.0 - t) * (t * t) * p2.x + (t * t) * t
  }

  function CubicSolveY(p1: Point, p2: Point, t: real): (y: real)
    ensures t == 0.0 ==> y == 0.0
    ensures t == 1.0 ==> y == 1.0
  {
    3.0 * (1.0 - t) * (1.0 - t) * t * p1.y + 3.0 * (1.0 - t) * (t * t) * p2.y + (t * t) * t
  }

  // ---------------------------------------------------------------------
  // Monotonicity of the x basis when control-point x lies in [0, 1]
  // ---------------------------------------------------------------------

  lemma ProductNonNegative(u: real, v: real)
    requires 0.0 <= u && 0.0 <= v
    ensures 0.0 <= u * v
  {
  }

  /** With a = p1.x in [0,1], X(t) - X(s) is (t - s) times the average of
      the derivative's Bernstein coefficients a and 1 - a, weighted at s and
      t: a product of two non-negative factors on 0 <= s <= t <= 1. */
  lemma QuadraticSolveXMonotone(p1: Point, s: real, t: real)
    requires 0.0 <= p1.x <= 1.0
    requires 0.0 <= s <= t <= 1.0
    ensures QuadraticSolveX(p1, s) <= QuadraticSolveX(p1, t)
  {
    QuadraticPolynomialOrdered(p1.x, s, t, QuadraticSolveX(p1, s), QuadraticSolveX(p1, t));
  }

  lemma QuadraticPolynomialOrdered(a: real, s: real, t: real, xs: real, xt: real)
    requires 0.0 <= a <= 1.0
    requires 0.0 <= s <= t <= 1.0
    requires xs == 2.0 * (1.0 - s) * s * a + s * s
    requires xt == 2.0 * (1.0 - t) * t * a + t * t
    ensures xs <= xt
  {
    assert xt - xs == (t - s) * (a * ((1.0 - s) + (1.0 - t)) + (1.0 - a) * (s + t));
    ProductNonNegative(a, (1.0 - s) + (1.0 - t));
    ProductNonNegative(1.0 - a, s + t);
    ProductNonNegative(t - s, a * ((1.0 - s) + (1.0 - t)) + (1.0 - a) * (s + t));
  }

  /** The blossom of the derivative of the cubic x basis, whose Bernstein
      coefficients are a, b - a and 1 - b. */
  function DerivativeBlossom(a: real, b: real, u: real, v: real): real
  {
    a * (1.0 - u) * (1.0 - v) + (b - a) * ((1.0 - u) * v + u * (1.0 - v)) + (1.0 - b) * (u * v)
  }

  /** The sum of the blossom at (t,t), (s,t) and (s,s): the average slope of
      the cubic x basis between s and t. */
  function BlossomSum(a: real, b: real, s: real, t: real): real
  {
    DerivativeBlossom(a, b, t, t) + DerivativeBlossom(a, b, s, t) + DerivativeBlossom(a, b, s, s)
  }

  lemma SquareNonNegative(x: real)
    ensures 0.0 <= x * x
  {
    if x < 0.0 {
      assert x * x == (-x) * (-x);
      ProductNonNegative(-x, -x);
    } else {
      ProductNonNegative(x, x);
    }
  }

  lemma SquareSumNonNegative(x: real, y: real)
    ensures 0.0 <= x * x + x * y + y * y
  {
    assert 2.0 * (x * x + x * y + y * y) == x * x + y * y + (x + y) * (x + y);
    SquareNonNegative(x);
    SquareNonNegative(y);
    SquareNonNegative(x + y);
  }

  // The Bernstein-like weights of the blossom sum, in p = 1-s, q = s,
  // r = 1-t and w = t.
  function WeightA(s: real, t: real): real
  {
    (1.0 - s) * (1.0 - s) + (1.0 - s) * (1.0 - t) + (1.0 - t) * (1.0 - t)
  }

  function WeightB(s: real, t: real): real
  {
    2.0 * ((1.0 - s) * s) + (1.0 - s) * t + s * (1.0 - t) + 2.0 * ((1.0 - t) * t)
  }

  function WeightC(s: real, t: real): real
  {
    s * s + s * t + t * t
  }

  function WeightE(s: real, t: real): real
  {
    (1.0 - 2.0 * s) * (1.0 - 2.0 * s) + (1.0 - 2.0 * s) * (1.0 - 2.0 * t) + (1.0 - 2.0 * t) * (1.0 - 2.0 * t)
  }

  lemma BlossomSumWeights(a: real, b: real, s: real, t: real)
    ensures BlossomSum(a, b, s, t) == a * WeightA(s, t) + (b - a) * WeightB(s, t) + (1.0 - b) * WeightC(s, t)
  {
  }

  lemma WeightsRelated(s: real, t: real)
    ensures WeightA(s, t) + WeightC(s, t) - WeightB(s, t) == WeightE(s, t)
  {
  }

  lemma WeightsNonNegative(s: real, t: real)
    requires 0.0 <= s <= 1.0 && 0.0 <= t <= 1.0
    ensures 0.0 <= WeightA(s, t) && 0.0 <= WeightB(s, t)
    ensures 0.0 <= WeightC(s, t) && 0.0 <= WeightE(s, t)
  {
    SquareSumNonNegative(1.0 - s, 1.0 - t);
    SquareSumNonNegative(s, t);
    SquareSumNonNegative(1.0 - 2.0 * s, 1.0 - 2.0 * t);
    ProductNonNegative(1.0 - s, s);
    ProductNonNegative(1.0 - s, t);
    ProductNonNegative(s, 1.0 - t);
    ProductNonNegative(1.0 - t, t);
    PositiveCombination((1.0 - s) * s, (1.0 - s) * t, s * (1.0 - t), (1.0 - t) * t);
  }

  lemma PositiveCombination(x1: real, x2: real, x3: real, x4: real)
    requires 0.0 <= x1 && 0.0 <= x2 && 0.0 <= x3 && 0.0 <= x4
    ensures 0.0 <= 2.0 * x1 + x2 + x3 + 2.0 * x4
  {
  }

  /** a*A + (b-a)*B + (1-b)*C is non-negative when every coefficient is
      (b >= a); otherwise it regroups as b*A + (1-a)*C + (a-b)*E. */
  lemma WeightedSumNonNegative(a: real, b: real, A: real, B: real, C: real, E: real)
    requires 0.0 <= a <= 1.0 && 0.0 <= b <= 1.0
    requires 0.0 <= A && 0.0 <= B && 0.0 <= C && 0.0 <= E
    requires A + C - B == E
    ensures 0.0 <= a * A + (b - a) * B + (1.0 - b) * C
  {
    if a <= b {
      ProductNonNegative(a, A);
      ProductNonNegative(b - a, B);
      ProductNonNegative(1.0 - b, C);
    } else {
      assert a * A + (b - a) * B + (1.0 - b) * C == b * A + (1.0 - a) * C + (a - b) * E;
      ProductNonNegative(b, A);
      ProductNonNegative(1.0 - a, C);
      ProductNonNegative(a - b, E);
    }
  }

  /** The average slope of the cubic x basis over [s, t] is non-negative
      for a, b, s, t in [0, 1]. */
  lemma BlossomSumNonNegative(a: real, b: real, s: real, t: real)
    requires 0.0 <= a <= 1.0 && 0.0 <= b <= 1.0
    requires 0.0 <= s <= 1.0 && 0.0 <= t <= 1.0
    ensures 0.0 <= BlossomSum(a, b, s, t)
  {
    BlossomSumWeights(a, b, s, t);
    WeightsRelated(s, t);
    WeightsNonNegative(s, t);
    WeightedSumNonNegative(a, b, WeightA(s, t), WeightB(s, t), WeightC(s, t), WeightE(s, t));
  }

  // The remaining steps work on bare reals: m, xs and xt stand for the
  // blossom sum and the cubic x basis at s and t, each pinned by an
  // equation, so that no proof mixes function unfolding with inequalities.

  lemma SlopeNonNegative(a: real, b: real, s: real, t: real, m: real)
    requires 0.0 <= a <= 1.0 && 0.0 <= b <= 1.0
    requires 0.0 <= s <= 1.0 && 0.0 <= t <= 1.0
    requires m == (a * (1.0 - t) * (1.0 - t) + (b - a) * ((1.0 - t) * t + t * (1.0 - t)) + (1.0 - b) * (t * t))
                + (a * (1.0 - s) * (1.0 - t) + (b - a) * ((1.0 - s) * t + s * (1.0 - t)) + (1.0 - b) * (s * t))
                + (a * (1.0 - s) * (1.0 - s) + (b - a) * ((1.0 - s) * s + s * (1.0 - s)) + (1.0 - b) * (s * s))
    ensures 0.0 <= m
  {
    BlossomSumNonNegative(a, b, s, t);
  }

  /** X(t) - X(s) == (t - s) * m: the blossom sum factors the difference. */
  lemma CubicDifferenceIdentity(a: real, b: real, s: real, t: real, m: real, xs: real, xt: real)
    requires m == (a * (1.0 - t) * (1.0 - t) + (b - a) * ((1.0 - t) * t + t * (1.0 - t)) + (1.0 - b) * (t * t))
                + (a * (1.0 - s) * (1.0 - t) + (b - a) * ((1.0 - s) * t + s * (1.0 - t)) + (1.0 - b) * (s * t))
                + (a * (1.0 - s) * (1.0 - s) + (b - a) * ((1.0 - s) * s + s * (1.0 - s)) + (1.0 - b) * (s * s))
    requires xs == 3.0 * (1.0 - s) * (1.0 - s) * s * a + 3.0 * (1.0 - s) * (s * s) * b + (s * s) * s
    requires xt == 3.0 * (1.0 - t) * (1.0 - t) * t * a + 3.0 * (1.0 - t) * (t * t) * b + (t * t) * t
    ensures xt - xs == (t - s) * m
  {
  }

  lemma CubicPolynomialOrdered(a: real, b: real, s: real, t: real, m: real, xs: real, xt: real)
    requires 0.0 <= a <= 1.0 && 0.0 <= b <= 1.0
    requires 0.0 <= s <= t <= 1.0
    requires m == (a * (1.0 - t) * (1.0 - t) + (b - a) * ((1.0 - t) * t + t * (1.0 - t)) + (1.0 - b) * (t * t))
                + (a * (1.0 - s) * (1.0 - t) + (b - a) * ((1.0 - s) * t + s * (1.0 - t)) + (1.0 - b) * (s * t))
                + (a * (1.0 - s) * (1.0 - s) + (b - a) * ((1.0 - s) * s + s * (1.0 - s)) + (1.0 - b) * (s * s))
    requires xs == 3.0 * (1.0 - s) * (1.0 - s) * s * a + 3.0 * (1.0 - s) * (s * s) * b + (s * s) * s
    requires xt == 3.0 * (1.0 - t) * (1.0 - t) * t * a + 3.0 * (1.0 - t) * (t * t) * b + (t * t) * t
    ensures xs <= xt
  {
    SlopeNonNegative(a, b, s, t, m);
    CubicDifferenceIdentity(a, b, s, t, m, xs, xt);
    ProductNonNegative(t - s, m);
  }

  /** With both control-point x in [0, 1] the cubic x basis never decreases
      on [0, 1]. */
  lemma CubicSolveXMonotone(p1: Point, p2: Point, s: real, t: real)
    requires 0.0 <= p1.x <= 1.0 && 0.0 <= p2.x <= 1.0
    requires 0.0 <= s <= t <= 1.0
    ensures CubicSolveX(p1, p2, s) <= CubicSolveX(p1, p2, t)
  {
    BlossomSumExpanded(p1.x, p2.x, s, t);
    CubicSolveXExpanded(p1, p2, s);
    CubicSolveXExpanded(p1, p2, t);
    CubicPolynomialOrdered(p1.x, p2.x, s, t, BlossomSum(p1.x, p2.x, s, t), CubicSolveX(p1, p2, s), CubicSolveX(p1, p2, t));
  }

  lemma CubicSolveXExpanded(p1: Point, p2: Point, t: real)
    ensures CubicSolveX(p1, p2, t) == 3.0 * (1.0 - t) * (1.0 - t) * t * p1.x + 3.0 * (1.0 - t) * (t * t) * p2.x + (t * t) * t
  {
  }

  lemma BlossomSumExpanded(a: real, b: real, s: real, t: real)
    ensures BlossomSum(a, b, s, t)
         == (a * (1.0 - t) * (1.0 - t) + (b - a) * ((1.0 - t) * t + t * (1.0 - t)) + (1.0 - b) * (t * t))
          + (a * (1.0 - s) * (1.0 - t) + (b - a) * ((1.0 - s) * t + s * (1.0 - t)) + (1.0 - b) * (s * t))
          + (a * (1.0 - s) * (1.0 - s) + (b - a) * ((1.0 - s) * s + s * (1.0 - s)) + (1.0 - b) * (s * s))
  {
  }

  // ---------------------------------------------------------------------
  // Curves and the inverse solver
  // ---------------------------------------------------------------------

  /** Default bisection counts of the quadratic and cubic namespaces. */
  const QuadraticIterations: nat := 15
  const CubicIterations: nat := 20

  /** The two curve families, each with its control points. */
  datatype Curve = Quadratic(p1: Point) | Cubic(p1: Point, p2: Point)
  {
    function SolveX(t: real): (x: real)
      ensures t == 0.0 ==> x == 0.0
      ensures t == 1.0 ==> x == 1.0
    {
      match this
      case Quadratic(p1) => QuadraticSolveX(p1, t)
      case Cubic(p1, p2) => CubicSolveX(p1, p2, t)
    }

    function SolveY(t: real): (y: real)
      ensures t == 0.0 ==> y == 0.0
      ensures t == 1.0 ==> y == 1.0
    {
      match this
      case Quadratic(p1) => QuadraticSolveY(p1, t)
      case Cubic(p1, p2) => CubicSolveY(p1, p2, t)
    }

    /** Every control point's x lies in [0, 1] (y is never constrained). */
    predicate ValidControlPoints()
    {
      match this
      case Quadratic(p1) => 0.0 <= p1.x <= 1.0
      case Cubic(p1, p2) => 0.0 <= p1.x <= 1.0 && 0.0 <= p2.x <= 1.0
    }
  }

  lemma SolveXMonotone(c: Curve, s: real, t: real)
    requires c.ValidControlPoints()
    requires 0.0 <= s <= t <= 1.0
    ensures c.SolveX(s) <= c.SolveX(t)
  {
    match c
    case Quadratic(p1) => QuadraticSolveXMonotone(p1, s, t);
    case Cubic(p1, p2) => CubicSolveXMonotone(p1, p2, s, t);
  }

  /** A curve's x basis never decreases on [0, 1] when its control points
      are valid. */
  lemma CurveSolveXMonotone(c: Curve)
    requires c.ValidControlPoints()
    ensures MonotoneOnUnit(c.SolveX)
    ensures c.SolveX(0.0) == 0.0 && c.SolveX(1.0) == 1.0
  {
    forall s: real, t: real | 0.0 <= s <= t <= 1.0
      ensures c.SolveX(s) <= c.SolveX(t)
    {
      SolveXMonotone(c, s, t);
    }
  }

  // ---------------------------------------------------------------------
  // The bisection, shared by both namespaces and parameterised by the
  // x basis f of the curve
  // ---------------------------------------------------------------------

  ghost predicate MonotoneOnUnit(f: real -> real)
  {
    forall s: real, t: real :: 0.0 <= s <= t <= 1.0 ==> f(s) <= f(t)
  }

  /** w halved n times, w * 2^-n */
  function Halved(w: real, n: nat): (r: real)
    ensures 0.0 < w ==> 0.0 < r <= w
  {
    if n == 0 then w else Halved(w, n - 1) / 2.0
  }

  lemma {:induction false} HalvedOfHalf(w: real, n: nat)
    ensures Halved(w / 2.0, n) == Halved(w, n) / 2.0
  {
    if n > 0 {
      HalvedOfHalf(w, n - 1);
    }
  }

  /** The bracket [lo, hi] the bisection keeps around target x: inside
      [0, 1], with f below x at lo (or lo at 0) and f at or above x at hi
      (or hi at 1). */
  ghost predicate Brackets(f: real -> real, x: real, lo: real, hi: real)
  {
    && 0.0 <= lo <= hi <= 1.0
    && (lo == 0.0 || f(lo) < x)
    && (hi == 1.0 || f(hi) >= x)
  }

  /** The bracket left after n more halvings of [lo, hi]: each step keeps
      the half whose ends still straddle x. */
  function Bisect(f: real -> real, x: real, lo: real, hi: real, n: nat): (b: (real, real))
    ensures Brackets(f, x, lo, hi) ==> Brackets(f, x, b.0, b.1)
    ensures lo <= hi ==> lo <= b.0 <= b.1 <= hi
    decreases n
  {
    if n == 0 then (lo, hi)
    else
      var guess := (lo + hi) / 2.0;
      if f(guess) < x then Bisect(f, x, guess, hi, n - 1) else Bisect(f, x, lo, guess, n - 1)
  }

  /** Every halving halves the width: n of them leave 2^-n of it. */
  lemma {:induction false} BisectWidth(f: real -> real, x: real, lo: real, hi: real, n: nat)
    ensures Bisect(f, x, lo, hi, n).1 - Bisect(f, x, lo, hi, n).0 == Halved(hi - lo, n)
    decreases n
  {
    if n > 0 {
      var guess := (lo + hi) / 2.0;
      HalvedOfHalf(hi - lo, n - 1);
      if f(guess) < x {
        BisectWidth(f, x, guess, hi, n - 1);
        assert hi - guess == (hi - lo) / 2.0;
      } else {
        BisectWidth(f, x, lo, guess, n - 1);
        assert guess - lo == (hi - lo) / 2.0;
      }
    }
  }

  /** The parameter t the inverse solver returns for target x after the
      given number of halvings: 0 and 1 at and beyond the ends, otherwise
      the midpoint of the final bracket of [0, 1]. */
  function TForX(f: real -> real, x: real, iterations: nat): (t: real)
    ensures x <= 0.0 ==> t == 0.0
    ensures x >= 1.0 ==> t == 1.0
    ensures 0.0 <= t <= 1.0
  {
    if x <= 0.0 then 0.0
    else if x >= 1.0 then 1.0
    else
      var b := Bisect(f, x, 0.0, 1.0, iterations);
      (b.0 + b.1) / 2.0
  }

  /** The eased value for target x: the y basis at the solver's t. */
  function YForX(c: Curve, x: real, iterations: nat): (y: real)
    ensures x <= 0.0 ==> y == 0.0
    ensures x >= 1.0 ==> y == 1.0
  {
    c.SolveY(TForX(c.SolveX, x, iterations))
  }

  /** On a monotone f, a bracket separates the parameters below the
      crossing of x from those at or above it. */
  lemma BracketSeparates(f: real -> real, x: real, lo: real, hi: real, t: real)
    requires MonotoneOnUnit(f) && f(0.0) == 0.0 && f(1.0) == 1.0
    requires 0.0 < x < 1.0
    requires Brackets(f, x, lo, hi)
    ensures 0.0 <= t <= lo ==> f(t) < x
    ensures hi <= t <= 1.0 ==> x <= f(t)
  {
    if 0.0 <= t <= lo && lo != 0.0 {
      assert f(t) <= f(lo);
    }
    if hi <= t <= 1.0 && hi != 1.0 {
      assert f(hi) <= f(t);
    }
  }

  /** For a monotone f with f(0) = 0, f(1) = 1 and 0 < x < 1, the solver's t
      lies within 2^-(n+1) of where f crosses x: every parameter at least
      that far below t maps below x, and every parameter at least that far
      above t maps to x or more. */
  lemma TForXLocatesCrossing(f: real -> real, x: real, n: nat, t: real)
    requires MonotoneOnUnit(f) && f(0.0) == 0.0 && f(1.0) == 1.0
    requires 0.0 < x < 1.0
    ensures 0.0 <= t <= TForX(f, x, n) - Halved(1.0, n) / 2.0 ==> f(t) < x
    ensures TForX(f, x, n) + Halved(1.0, n) / 2.0 <= t <= 1.0 ==> x <= f(t)
  {
    var b := Bisect(f, x, 0.0, 1.0, n);
    assert Brackets(f, x, 0.0, 1.0);
    BisectWidth(f, x, 0.0, 1.0, n);
    assert TForX(f, x, n) - Halved(1.0, n) / 2.0 == b.0;
    assert TForX(f, x, n) + Halved(1.0, n) / 2.0 == b.1;
    BracketSeparates(f, x, b.0, b.1, t);
  }

  /** The same for a curve with valid control points: its x basis at
      parameters 2^-(n+1) or more away from the solver's t falls on the
      corresponding side of x. */
  lemma CurveTForXLocatesCrossing(c: Curve, x: real, n: nat, t: real)
    requires c.ValidControlPoints()
    requires 0.0 < x < 1.0
    ensures 0.0 <= t <= TForX(c.SolveX, x, n) - Halved(1.0, n) / 2.0 ==> c.SolveX(t) < x
    ensures TForX(c.SolveX, x, n) + Halved(1.0, n) / 2.0 <= t <= 1.0 ==> x <= c.SolveX(t)
  {
    CurveSolveXMonotone(c);
    TForXLocatesCrossing(c.SolveX, x, n, t);
  }

  /** The fixed-iteration bisection: short-circuits x <= 0 and x >= 1,
      otherwise halves [tMin, tMax] `iterations` times and returns the
      midpoint. */
  method SolveTForX(f: real -> real, x: real, iterations: nat) returns (t: real)
    ensures t == TForX(f, x, iterations)
    ensures 0.0 <= t <= 1.0
  {
    if x <= 0.0 {
      return 0.0;
    }
    if x >= 1.0 {
      return 1.0;
    }
    var tMin, tMax := 0.0, 1.0;
    for i := 0 to iterations
      invariant Brackets(f, x, tMin, tMax)
      invariant tMax - tMin == Halved(1.0, i)
      invariant Bisect(f, x, tMin, tMax, iterations - i) == Bisect(f, x, 0.0, 1.0, iterations)
    {
      var tGuess := (tMin + tMax) / 2.0;
      var xGuess := f(tGuess);
      if xGuess < x {
        tMin := tGuess;
      } else {
        tMax := tGuess;
      }
    }
    t := (tMin + tMax) / 2.0;
  }

  /** solveYForX of both namespaces: the y basis at the solver's t. */
  method SolveYForX(c: Curve, x: real, iterations: nat) returns (y: real)
    ensures y == YForX(c, x, iterations)
  {
    var t := SolveTForX(c.SolveX, x, iterations);
    y := c.SolveY(t);
  }
}
