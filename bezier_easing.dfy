/** The two easing classes: a curve with validated control points and a
    memo of solveYForX results keyed by the rounded, scaled x. */
module BezierEasing {
  import opened Wrappers
  import opened BezierCurve

  /** The accuracy the constructors use when none is given: keys are x
      rounded to 10^-4. */
  const DefaultAccuracy: int := 4

  /** The accuracy that turns the cache off. */
  const NoCache: int := -1

  /** 10 raised to an integer power; negative powers give fractions. */
  function Pow10(e: int): (r: real)
    ensures 0.0 < r
    ensures e >= 0 ==> 1.0 <= r
    decreases if e < 0 then -e else e
  {
    if e == 0 then 1.0
    else if e > 0 then 10.0 * Pow10(e - 1)
    else Pow10(e + 1) / 10.0
  }

  lemma {:induction false} Pow10Step(e: int)
    ensures Pow10(e + 1) == 10.0 * Pow10(e)
    decreases if e < 0 then -e else e
  {
    if e < 0 {
      assert Pow10(e) == Pow10(e + 1) / 10.0;
    }
  }

  /** The stored accuracy: -1 keeps the cache off, any other exponent is
      replaced by the scale 10^accuracy. */
  function Scale(accuracy: int): (s: real)
    ensures s == -1.0 <==> accuracy == NoCache
    ensures accuracy != NoCache ==> 0.0 < s
  {
    if accuracy == NoCache then -1.0 else Pow10(accuracy)
  }

  lemma DefaultScale()
    ensures Scale(DefaultAccuracy) == 10000.0
  {
    assert Pow10(1) == 10.0;
    assert Pow10(2) == 100.0;
    assert Pow10(3) == 1000.0;
  }

  /** Math.round on exact reals: the nearest integer, halves rounded up. */
  function Round(r: real): (n: int)
    ensures r - 0.5 < n as real <= r + 0.5
  {
    (r + 0.5).Floor
  }

  /** Round(r) is the one integer n with r - 1/2 < n <= r + 1/2. */
  lemma RoundNearest(r: real, n: int)
    ensures Round(r) == n <==> r - 0.5 < n as real <= r + 0.5
  {
  }

  /** The cache key of x at the given scale. */
  function CacheKey(x: real, scale: real): (k: int)
    ensures x * scale - 0.5 < k as real <= x * scale + 0.5
  {
    Round(x * scale)
  }

  /** Two x with the same key at a positive scale differ by less than one
      step 1/scale. */
  lemma SameKeyClose(x: real, x': real, scale: real)
    requires CacheKey(x, scale) == CacheKey(x', scale)
    ensures -1.0 < x * scale - x' * scale < 1.0
  {
    RoundNearest(x * scale, CacheKey(x, scale));
    RoundNearest(x' * scale, CacheKey(x', scale));
  }

  /** Every value cached for curve c is solveYForX at an x that rounds to
      its key; origin remembers that x. */
  ghost predicate CacheExplained(cache: map<int, real>, origin: map<int, real>, scale: real, c: Curve, iterations: nat)
  {
    && origin.Keys == cache.Keys
    && forall k | k in cache ::
         CacheKey(origin[k], scale) == k && cache[k] == YForX(c, origin[k], iterations)
  }

  /** Storing solveYForX(x) under x's key keeps the cache explained. */
  lemma CacheStoreExplained(cache: map<int, real>, origin: map<int, real>, scale: real, c: Curve,
                            iterations: nat, x: real, y: real)
    requires CacheExplained(cache, origin, scale, c, iterations)
    requires y == YForX(c, x, iterations)
    ensures CacheExplained(cache[CacheKey(x, scale) := y], origin[CacheKey(x, scale) := x], scale, c, iterations)
  {
  }

  /** The errors the constructors throw. */
  datatype CurveError = InvalidP1 | InvalidP2

  /** The constructor's check of the quadratic control point. */
  function CheckQuadratic(p1: Point): (r: Option<CurveError>)
    ensures r == None <==> Quadratic(p1).ValidControlPoints()
    ensures r != None ==> r == Some(InvalidP1)
  {
    if p1.x < 0.0 || p1.x > 1.0 then Some(InvalidP1) else None
  }

  /** The constructor's checks of the cubic control points: P1 first. */
  function CheckCubic(p1: Point, p2: Point): (r: Option<CurveError>)
    ensures r == None <==> Cubic(p1, p2).ValidControlPoints()
    ensures r == Some(InvalidP1) <==> !(0.0 <= p1.x <= 1.0)
    ensures r == Some(InvalidP2) <==> 0.0 <= p1.x <= 1.0 && !(0.0 <= p2.x <= 1.0)
  {
    if p1.x < 0.0 || p1.x > 1.0 then Some(InvalidP1)
    else if p2.x < 0.0 || p2.x > 1.0 then Some(InvalidP2)
    else None
  }

  class QuadraticBezier {
    const p1: Point
    var accuracy: real
    var cache: map<int, real>
    /** For each key, the x whose result is stored under it. */
    ghost var origin: map<int, real>

    function Curve(): Curve
    {
      Quadratic(p1)
    }

    /** Valid control point; an accuracy of -1 or a positive scale; every
        cached value is solveYForX at an x that rounds to its key. */
    ghost predicate Valid()
      reads this
    {
      && Curve().ValidControlPoints()
      && (accuracy == -1.0 || 0.0 < accuracy)
      && CacheExplained(cache, origin, accuracy, Curve(), QuadraticIterations)
    }

    constructor(p1: Point, accuracy: int)
      requires CheckQuadratic(p1) == None
      ensures Valid()
      ensures this.p1 == p1 && this.accuracy == Scale(accuracy)
      ensures cache == map[]
    {
      this.p1 := p1;
      this.accuracy := Scale(accuracy);
      cache := map[];
      origin := map[];
    }

    /** Construction as the source does it: the check throws before any
        object exists. */
    static method Create(p1: Point, accuracy: int) returns (r: Result<QuadraticBezier, CurveError>)
      ensures r.Failure? <==> CheckQuadratic(p1) != None
      ensures r.Failure? ==> Some(r.error) == CheckQuadratic(p1)
      ensures r.Success? ==> fresh(r.value) && r.value.Valid() && r.value.p1 == p1
      ensures r.Success? ==> r.value.accuracy == Scale(accuracy) && r.value.cache == map[]
    {
      var check := CheckQuadratic(p1);
      if check.Some? {
        return Failure(check.value);
      }
      var b := new QuadraticBezier(p1, accuracy);
      return Success(b);
    }

    function SolveX(t: real): (x: real)
      ensures x == Curve().SolveX(t)
    {
      QuadraticSolveX(p1, t)
    }

    function SolveY(t: real): (y: real)
      ensures y == Curve().SolveY(t)
    {
      QuadraticSolveY(p1, t)
    }

    /** Without a cache, solveYForX itself; otherwise the value stored under
        x's key, computed and stored first when the key is new. */
    method SolveYForX(x: real) returns (y: real)
      requires Valid()
      modifies this
      ensures Valid()
      ensures accuracy == old(accuracy)
      ensures old(accuracy) == -1.0 ==>
        y == YForX(Curve(), x, QuadraticIterations) && cache == old(cache)
      ensures old(accuracy) != -1.0 && CacheKey(x, accuracy) in old(cache) ==>
        y == old(cache)[CacheKey(x, accuracy)] && cache == old(cache)
      ensures old(accuracy) != -1.0 && CacheKey(x, accuracy) !in old(cache) ==>
        y == YForX(Curve(), x, QuadraticIterations) && cache == old(cache)[CacheKey(x, accuracy) := y]
      ensures old(accuracy) != -1.0 ==>
        var k := CacheKey(x, accuracy);
        k in origin && CacheKey(origin[k], accuracy) == k
        && y == YForX(Curve(), origin[k], QuadraticIterations)
    {
      if accuracy == -1.0 {
        y := BezierCurve.SolveYForX(Curve(), x, QuadraticIterations);
        return;
      }
      var roughX := CacheKey(x, accuracy);
      if roughX in cache {
        y := cache[roughX];
      } else {
        y := BezierCurve.SolveYForX(Curve(), x, QuadraticIterations);
        CacheStoreExplained(cache, origin, accuracy, Curve(), QuadraticIterations, x, y);
        cache := cache[roughX := y];
        origin := origin[roughX := x];
      }
    }
  }

  class CubicBezier {
    const p1: Point
    const p2: Point
    var accuracy: real
    var cache: map<int, real>
    /** For each key, the x whose result is stored under it. */
    ghost var origin: map<int, real>

    function Curve(): Curve
    {
      Cubic(p1, p2)
    }

    /** Valid control points; an accuracy of -1 or a positive scale; every
        cached value is solveYForX at an x that rounds to its key. */
    ghost predicate Valid()
      reads this
    {
      && Curve().ValidControlPoints()
      && (accuracy == -1.0 || 0.0 < accuracy)
      && CacheExplained(cache, origin, accuracy, Curve(), CubicIterations)
    }

    constructor(p1: Point, p2: Point, accuracy: int)
      requires CheckCubic(p1, p2) == None
      ensures Valid()
      ensures this.p1 == p1 && this.p2 == p2 && this.accuracy == Scale(accuracy)
      ensures cache == map[]
    {
      this.p1 := p1;
      this.p2 := p2;
      this.accuracy := Scale(accuracy);
      cache := map[];
      origin := map[];
    }

    /** Construction as the source does it: P1 is checked, then P2. */
    static method Create(p1: Point, p2: Point, accuracy: int) returns (r: Result<CubicBezier, CurveError>)
      ensures r.Failure? <==> CheckCubic(p1, p2) != None
      ensures r.Failure? ==> Some(r.error) == CheckCubic(p1, p2)
      ensures r.Success? ==> fresh(r.value) && r.value.Valid()
      ensures r.Success? ==> r.value.p1 == p1 && r.value.p2 == p2
      ensures r.Success? ==> r.value.accuracy == Scale(accuracy) && r.value.cache == map[]
    {
      var check := CheckCubic(p1, p2);
      if check.Some? {
        return Failure(check.value);
      }
      var b := new CubicBezier(p1, p2, accuracy);
      return Success(b);
    }

    function SolveX(t: real): (x: real)
      ensures x == Curve().SolveX(t)
    {
      CubicSolveX(p1, p2, t)
    }

    function SolveY(t: real): (y: real)
      ensures y == Curve().SolveY(t)
    {
      CubicSolveY(p1, p2, t)
    }

    /** Without a cache, solveYForX itself; otherwise the value stored under
        x's key, computed and stored first when the key is new. */
    method SolveYForX(x: real) returns (y: real)
      requires Valid()
      modifies this
      ensures Valid()
      ensures accuracy == old(accuracy)
      ensures old(accuracy) == -1.0 ==>
        y == YForX(Curve(), x, CubicIterations) && cache == old(cache)
      ensures old(accuracy) != -1.0 && CacheKey(x, accuracy) in old(cache) ==>
        y == old(cache)[CacheKey(x, accuracy)] && cache == old(cache)
      ensures old(accuracy) != -1.0 && CacheKey(x, accuracy) !in old(cache) ==>
        y == YForX(Curve(), x, CubicIterations) && cache == old(cache)[CacheKey(x, accuracy) := y]
      ensures old(accuracy) != -1.0 ==>
        var k := CacheKey(x, accuracy);
        k in origin && CacheKey(origin[k], accuracy) == k
        && y == YForX(Curve(), origin[k], CubicIterations)
    {
      if accuracy == -1.0 {
        y := BezierCurve.SolveYForX(Curve(), x, CubicIterations);
        return;
      }
      var roughX := CacheKey(x, accuracy);
      if roughX in cache {
        y := cache[roughX];
      } else {
        y := BezierCurve.SolveYForX(Curve(), x, CubicIterations);
        CacheStoreExplained(cache, origin, accuracy, Curve(), CubicIterations, x, y);
        cache := cache[roughX := y];
        origin := origin[roughX := x];
      }
    }
  }
}
