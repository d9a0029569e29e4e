/**
 * Interval evaluation of polynomials (`ia/package.kt`): a univariate
 * polynomial in power form, a multivariate polynomial monomial by monomial
 * with a memoised interval power, a rational function as a quotient of two
 * such evaluations, and `mapInto`, which places a value of an interval on
 * an integer scale. Every evaluation encloses the exact value at every
 * point of its argument box.
 */
module IntervalEval {
  import opened Wrappers
  import opened Polynomials
  import opened Intervals
  import opened MPolys
  import opened Boxes

  /** The point interval [c, c]. */
  function Point(c: real): (r: Interval)
    ensures forall y :: Contains(r, y) <==> y == c
  {
    RawInterval(c, c)
  }

  // ---------------------------------------------------------------------
  // UPoly.evaluate
  // ---------------------------------------------------------------------

  /** The loop's `point` in round i: x multiplied by itself i − 1 times. */
  function PointPower(x: Interval, i: nat): Interval
    requires i >= 1
    decreases i
  {
    if i == 1 then x else Times(PointPower(x, i - 1), x)
  }

  /** The loop's `result` once coefficients 1 .. k − 1 have been added to [c0, c0]. */
  function UEvalPrefix(p: UPoly, x: Interval, k: nat): Interval
    requires 1 <= k <= |p|
    decreases k
  {
    if k == 1 then Point(p[0]) else Plus(UEvalPrefix(p, x, k - 1), TimesScalar(PointPower(x, k - 1), p[k - 1]))
  }

  /** The interval value of p over x: [c0, c0] plus x^i · c_i for i = 1 .. degree. */
  function UEval(p: UPoly, x: Interval): Interval {
    UEvalPrefix(p, x, |p|)
  }

  /** `UPoly.evaluate(x)`. */
  method EvaluateUPoly(p: UPoly, x: Interval) returns (r: Interval)
    ensures r == UEval(p, x)
  {
    var result := Point(p[0]);
    var point := x;
    var i := 1;
    while i <= Degree(p)
      invariant 1 <= i <= |p|
      invariant point == PointPower(x, i)
      invariant result == UEvalPrefix(p, x, i)
    {
      result := Plus(result, TimesScalar(point, p[i]));
      point := Times(point, x);
      i := i + 1;
    }
    return result;
  }

  /** A constant polynomial evaluates to its point interval, whatever x is. */
  lemma UEvalConstant(p: UPoly, x: Interval)
    requires |p| == 1
    ensures UEval(p, x) == Point(p[0])
  {
  }

  /** The k-th interval power encloses y^k for every y in x. */
  lemma {:induction false} PointPowerEncloses(x: Interval, i: nat, y: real)
    requires i >= 1 && Contains(x, y)
    ensures Contains(PointPower(x, i), Power(y, i))
    decreases i
  {
    if i == 1 {
      PowerOne(y);
    } else {
      var j: nat := i - 1;
      PointPowerEncloses(x, j, y);
      PointPowerStep(x, i, j);
      var pj := Power(y, j);
      var pi := Power(y, i);
      PowerSnoc(y, j, i, pj, pi);
      TimesEnclosesProduct(PointPower(x, j), x, pj, y, pi);
    }
  }

  lemma PointPowerStep(x: Interval, i: nat, j: nat)
    requires i == j + 1 && j >= 1
    ensures PointPower(x, i) == Times(PointPower(x, j), x)
  {
  }

  /** The interval value of p over x encloses p(y) for every y in x. */
  lemma UEvalEncloses(p: UPoly, x: Interval, y: real)
    requires Contains(x, y)
    ensures Contains(UEval(p, x), Eval(p, y))
  {
    UEvalPrefixEncloses(p, x, y, |p|);
    WholeCoeffs(p, |p|);
  }

  lemma WholeCoeffs(p: seq<real>, k: nat)
    requires k == |p|
    ensures p[..k] == p
  {
  }

  lemma {:induction false} UEvalPrefixEncloses(p: UPoly, x: Interval, y: real, k: nat)
    requires 1 <= k <= |p| && Contains(x, y)
    ensures Contains(UEvalPrefix(p, x, k), Eval(p[..k], y))
    decreases k
  {
    if k == 1 {
      assert p[..1] == [p[0]];
      EvalConstant(p[0], y);
    } else {
      var j: nat := k - 1;
      UEvalPrefixEncloses(p, x, y, j);
      PointPowerEncloses(x, j, y);
      var before := Eval(p[..j], y);
      var pw := Power(y, j);
      var term := Monomial(p[j], y, j);
      PrefixExtends(p, y, j, k, before, term);
      MonomialCommutes(p[j], y, j, pw, term);
      ScaledSumEncloses(UEvalPrefix(p, x, j), PointPower(x, j), p[j], before, pw, term);
    }
  }

  /** Coefficients 0 .. k − 1 of p add the monomial of coefficient k − 1 to those before it. */
  lemma PrefixExtends(p: seq<real>, y: real, j: nat, k: nat, before: real, term: real)
    requires k == j + 1 && k <= |p|
    requires before == Eval(p[..j], y) && term == Monomial(p[j], y, j)
    ensures Eval(p[..k], y) == before + term
  {
    assert p[..k] == p[..j] + [p[j]];
    EvalAppend(p[..j], p[j], y);
  }

  // ---------------------------------------------------------------------
  // Arithmetic steps, each stated over plain reals
  // ---------------------------------------------------------------------

  /** The product a · b, named so that enclosure steps match it as a term. */
  function Product(a: real, b: real): real {
    a * b
  }

  /** y^1 == y. */
  lemma PowerOne(y: real)
    ensures Power(y, 1) == y
  {
    assert Power(y, 1) == y * Power(y, 0);
  }

  /** y^k == y^(k−1) · y. */
  lemma PowerSnoc(y: real, j: nat, k: nat, pj: real, pk: real)
    requires k == j + 1 && pj == Power(y, j) && pk == Power(y, k)
    ensures pk == Product(pj, y)
  {
  }

  /** y^(h+h) == y^h · y^h. */
  lemma PowerDouble(y: real, h: nat, d: nat, ph: real, pd: real)
    requires d == h + h && ph == Power(y, h) && pd == Power(y, d)
    ensures pd == Product(ph, ph)
  {
    PowerAdd(y, h, h);
  }

  /** c · y^k == y^k · c. */
  lemma MonomialCommutes(c: real, y: real, k: nat, pw: real, m: real)
    requires pw == Power(y, k) && m == Monomial(c, y, k)
    ensures m == Product(pw, c)
  {
  }

  /** An interval product encloses the product of any two of its factors' points. */
  lemma TimesEnclosesProduct(a: Interval, b: Interval, u: real, w: real, v: real)
    requires Contains(a, u) && Contains(b, w) && v == Product(u, w)
    ensures Contains(Times(a, b), v)
  {
    TimesEncloses(a, b, u, w);
  }

  /** acc + f · c encloses s + t whenever acc holds s, f holds v and t is v · c. */
  lemma ScaledSumEncloses(acc: Interval, f: Interval, c: real, s: real, v: real, t: real)
    requires Contains(acc, s) && Contains(f, v) && t == Product(v, c)
    ensures Contains(Plus(acc, TimesScalar(f, c)), s + t)
  {
    TimesScalarEncloses(f, c, v);
    PlusEncloses(acc, TimesScalar(f, c));
  }

  // ---------------------------------------------------------------------
  // MPoly.evaluate and its memoised `pow`
  // ---------------------------------------------------------------------

  /**
   * `pow(x, e)` for e ≥ 1: x, x·x, and for e > 2 a·a or a·a·x with
   * a = pow(x, e / 2).
   */
  function PowPositive(x: Interval, e: nat): Interval
    requires e >= 1
    decreases e
  {
    if e == 1 then x
    else if e == 2 then Times(x, x)
    else
      var a := PowPositive(x, e / 2);
      if e % 2 == 0 then Times(a, a) else Times(Times(a, a), x)
  }

  /** Every entry of the memo table holds the power its key names. */
  predicate CacheSound(cache: map<(Interval, nat), Interval>) {
    forall key :: key in cache ==> key.1 >= 1 && cache[key] == PowPositive(key.0, key.1)
  }

  /**
   * The local `pow` with its `powCache`: fails on exponent 0, answers a
   * cached exponent from the table, and stores every power above 2 that it
   * computes. What it returns never depends on the table.
   */
  method PowCached(x: Interval, e: nat, cache: map<(Interval, nat), Interval>)
      returns (r: Result<Interval>, cache': map<(Interval, nat), Interval>)
    requires CacheSound(cache)
    ensures CacheSound(cache')
    ensures e == 0 ==> r == Err(IllegalState("Unsupported"))
    ensures e >= 1 ==> r == Ok(PowPositive(x, e))
    decreases e
  {
    if e == 0 {
      return Err(IllegalState("Unsupported")), cache;
    }
    if e == 1 {
      return Ok(x), cache;
    }
    if e == 2 {
      return Ok(Times(x, x)), cache;
    }
    if (x, e) in cache {
      return Ok(cache[(x, e)]), cache;
    }
    var half, table := PowCached(x, e / 2, cache);
    var a := half.value;
    var computed := if e % 2 == 0 then Times(a, a) else Times(Times(a, a), x);
    return Ok(computed), table[(x, e) := computed];
  }

  /** The fold over the first k exponents of a monomial, from [1, 1]. */
  function FoldVars(x: seq<Interval>, exps: seq<nat>, k: nat): Result<Interval>
    requires k <= |exps|
    decreases k
  {
    if k == 0 then Ok(Point(1.0)) else MulVar(FoldVars(x, exps, k - 1), x, k - 1, exps[k - 1])
  }

  /**
   * One round of the fold: a failure stays, a zero degree is skipped, a
   * variable without an interval fails, any other multiplies by its power.
   */
  function MulVar(acc: Result<Interval>, x: seq<Interval>, i: nat, degree: nat): Result<Interval> {
    if acc.Err? || degree == 0 then acc
    else if i >= |x| then Err(IndexOutOfBounds)
    else Ok(Times(acc.value, PowPositive(x[i], degree)))
  }

  /** The evaluation of the variables of one monomial. */
  function TermVars(x: seq<Interval>, t: Term): Result<Interval> {
    FoldVars(x, t.exponents, |t.exponents|)
  }

  /** `result` after the first k monomials, from [0, 0]. */
  function MEvalPrefix(p: MPoly, x: seq<Interval>, k: nat): Result<Interval>
    requires k <= |p.terms|
    decreases k
  {
    if k == 0 then Ok(Point(0.0))
    else AddMonomial(MEvalPrefix(p, x, k - 1), TermVars(x, p.terms[k - 1]), p.terms[k - 1].coefficient)
  }

  /** One round of the sum: the first failure stays, otherwise acc + vars · c. */
  function AddMonomial(acc: Result<Interval>, vars: Result<Interval>, c: real): Result<Interval> {
    if acc.Err? then acc
    else if vars.Err? then vars
    else Ok(Plus(acc.value, TimesScalar(vars.value, c)))
  }

  /** The interval value of p over the box x. */
  function MEvalInterval(p: MPoly, x: seq<Interval>): Result<Interval> {
    MEvalPrefix(p, x, |p.terms|)
  }

  /** `MPoly.evaluate(vararg x)`. */
  method EvaluateMPoly(p: MPoly, x: seq<Interval>) returns (r: Result<Interval>)
    ensures r == MEvalInterval(p, x)
  {
    var cache: map<(Interval, nat), Interval> := map[];
    var result := Point(0.0);
    var k := 0;
    while k < |p.terms|
      invariant k <= |p.terms|
      invariant CacheSound(cache)
      invariant MEvalPrefix(p, x, k) == Ok(result)
    {
      var monomial := p.terms[k];
      var vars, table := EvaluateVars(x, monomial.exponents, cache);
      cache := table;
      if vars.Err? {
        assert MEvalPrefix(p, x, k + 1) == Err(vars.error);
        MEvalPrefixErrorStays(p, x, k + 1, |p.terms|);
        return Err(vars.error);
      }
      result := Plus(result, TimesScalar(vars.value, monomial.coefficient));
      k := k + 1;
    }
    return Ok(result);
  }

  /** The `foldIndexed` over one monomial's exponents, sharing the memo table. */
  method EvaluateVars(x: seq<Interval>, exps: seq<nat>, cache: map<(Interval, nat), Interval>)
      returns (r: Result<Interval>, cache': map<(Interval, nat), Interval>)
    requires CacheSound(cache)
    ensures CacheSound(cache')
    ensures r == FoldVars(x, exps, |exps|)
  {
    cache' := cache;
    var acc := Point(1.0);
    var i := 0;
    while i < |exps|
      invariant i <= |exps|
      invariant CacheSound(cache')
      invariant FoldVars(x, exps, i) == Ok(acc)
    {
      var next, table := EvaluateVar(x, exps, i, acc, cache');
      cache' := table;
      if next.Err? {
        FoldVarsErrorStays(x, exps, i + 1, |exps|);
        return next, cache';
      }
      acc := next.value;
      i := i + 1;
    }
    return Ok(acc), cache';
  }

  /** One round of the fold: skip a zero degree, else multiply by the variable's memoised power. */
  method EvaluateVar(x: seq<Interval>, exps: seq<nat>, i: nat, acc: Interval, cache: map<(Interval, nat), Interval>)
      returns (next: Result<Interval>, cache': map<(Interval, nat), Interval>)
    requires i < |exps| && CacheSound(cache) && FoldVars(x, exps, i) == Ok(acc)
    ensures CacheSound(cache')
    ensures next == FoldVars(x, exps, i + 1)
  {
    var degree := exps[i];
    if degree == 0 {
      return Ok(acc), cache;
    }
    if i >= |x| {
      return Err(IndexOutOfBounds), cache;
    }
    var power, table := PowCached(x[i], degree, cache);
    return Ok(Times(acc, power.value)), table;
  }

  /** Once the fold has failed, the later rounds keep its error. */
  lemma {:induction false} FoldVarsErrorStays(x: seq<Interval>, exps: seq<nat>, i: nat, n: nat)
    requires i <= n <= |exps| && FoldVars(x, exps, i).Err?
    ensures FoldVars(x, exps, n) == FoldVars(x, exps, i)
    decreases n - i
  {
    if i < n {
      var next: nat := i + 1;
      assert FoldVars(x, exps, next) == FoldVars(x, exps, i);
      FoldVarsErrorStays(x, exps, next, n);
    }
  }

  /** Once the sum over monomials has failed, the later rounds keep its error. */
  lemma {:induction false} MEvalPrefixErrorStays(p: MPoly, x: seq<Interval>, k: nat, n: nat)
    requires k <= n <= |p.terms| && MEvalPrefix(p, x, k).Err?
    ensures MEvalPrefix(p, x, n) == MEvalPrefix(p, x, k)
    decreases n - k
  {
    if k < n {
      var next: nat := k + 1;
      assert MEvalPrefix(p, x, next) == MEvalPrefix(p, x, k);
      MEvalPrefixErrorStays(p, x, next, n);
    }
  }

  /** Every variable a monomial of p uses with a positive degree has an interval in x. */
  predicate Covers(p: MPoly, x: seq<Interval>) {
    forall k, i :: 0 <= k < |p.terms| && 0 <= i < |p.terms[k].exponents| && p.terms[k].exponents[i] > 0 ==> i < |x|
  }

  /** Evaluation fails exactly when some used variable has no interval, and only with IndexOutOfBounds. */
  lemma MEvalFails(p: MPoly, x: seq<Interval>)
    ensures MEvalInterval(p, x).Err? <==> !Covers(p, x)
    ensures MEvalInterval(p, x).Err? ==> MEvalInterval(p, x).error == IndexOutOfBounds
  {
    MEvalPrefixFails(p, x, |p.terms|);
  }

  lemma {:induction false} MEvalPrefixFails(p: MPoly, x: seq<Interval>, k: nat)
    requires k <= |p.terms|
    ensures MEvalPrefix(p, x, k).Err? <==>
      exists j, i :: 0 <= j < k && 0 <= i < |p.terms[j].exponents| && p.terms[j].exponents[i] > 0 && i >= |x|
    ensures MEvalPrefix(p, x, k).Err? ==> MEvalPrefix(p, x, k).error == IndexOutOfBounds
    decreases k
  {
    if k > 0 {
      var j: nat := k - 1;
      MEvalPrefixFails(p, x, j);
      var t := p.terms[j];
      FoldVarsFails(x, t.exponents, |t.exponents|);
    }
  }

  lemma {:induction false} FoldVarsFails(x: seq<Interval>, exps: seq<nat>, k: nat)
    requires k <= |exps|
    ensures FoldVars(x, exps, k).Err? <==> exists i :: 0 <= i < k && exps[i] > 0 && i >= |x|
    ensures FoldVars(x, exps, k).Err? ==> FoldVars(x, exps, k).error == IndexOutOfBounds
    decreases k
  {
    if k > 0 {
      FoldVarsFails(x, exps, k - 1);
    }
  }

  /** The memoised power encloses y^e for every y in x. */
  lemma {:induction false} PowPositiveEncloses(x: Interval, e: nat, y: real)
    requires e >= 1 && Contains(x, y)
    ensures Contains(PowPositive(x, e), Power(y, e))
    decreases e
  {
    if e == 1 {
      PowerOne(y);
    } else if e == 2 {
      PowerOne(y);
      PowerSnoc(y, 1, 2, y, Power(y, 2));
      TimesEnclosesProduct(x, x, y, y, Power(y, 2));
    } else {
      var h: nat := e / 2;
      var d: nat := h + h;
      PowPositiveEncloses(x, h, y);
      var a := PowPositive(x, h);
      var ph := Power(y, h);
      var pd := Power(y, d);
      PowerDouble(y, h, d, ph, pd);
      TimesEnclosesProduct(a, a, ph, ph, pd);
      if e % 2 == 0 {
        PowPositiveEven(x, e, h, d);
      } else {
        var pe := Power(y, e);
        PowPositiveOdd(x, e, h, d);
        PowerSnoc(y, d, e, pd, pe);
        TimesEnclosesProduct(Times(a, a), x, pd, y, pe);
      }
    }
  }

  lemma PowPositiveEven(x: Interval, e: nat, h: nat, d: nat)
    requires e > 2 && h == e / 2 && d == h + h && e % 2 == 0
    ensures e == d && PowPositive(x, e) == Times(PowPositive(x, h), PowPositive(x, h))
  {
  }

  lemma PowPositiveOdd(x: Interval, e: nat, h: nat, d: nat)
    requires e > 2 && h == e / 2 && d == h + h && e % 2 == 1
    ensures e == d + 1 && PowPositive(x, e) == Times(Times(PowPositive(x, h), PowPositive(x, h)), x)
  {
  }

  /** The fold of a monomial's variables encloses their product at every point of the box. */
  lemma {:induction false} FoldVarsEncloses(x: seq<Interval>, exps: seq<nat>, pt: seq<real>, k: nat)
    requires k <= |exps| && InBox(x, pt) && FoldVars(x, exps, k).Ok?
    ensures Contains(FoldVars(x, exps, k).value, MonomialValue(exps, pt, k))
    decreases k
  {
    if k > 0 {
      var j: nat := k - 1;
      FoldVarsStep(x, exps, k, j);
      FoldVarsEncloses(x, exps, pt, j);
      var acc := FoldVars(x, exps, j).value;
      var before := MonomialValue(exps, pt, j);
      var after := MonomialValue(exps, pt, k);
      if exps[j] == 0 {
        MonomialSkips(exps, pt, k, j, before, after);
      } else {
        var pw := Power(pt[j], exps[j]);
        PowPositiveEncloses(x[j], exps[j], pt[j]);
        MonomialStep(exps, pt, k, j, before, pw, after);
        TimesEnclosesProduct(acc, PowPositive(x[j], exps[j]), before, pw, after);
      }
    }
  }

  lemma FoldVarsStep(x: seq<Interval>, exps: seq<nat>, k: nat, j: nat)
    requires k == j + 1 && k <= |exps|
    ensures FoldVars(x, exps, k) == MulVar(FoldVars(x, exps, j), x, j, exps[j])
  {
  }

  lemma MonomialSkips(exps: seq<nat>, pt: seq<real>, k: nat, j: nat, before: real, after: real)
    requires k == j + 1 && k <= |exps| && exps[j] == 0
    requires before == MonomialValue(exps, pt, j) && after == MonomialValue(exps, pt, k)
    ensures after == before
  {
  }

  lemma MonomialStep(exps: seq<nat>, pt: seq<real>, k: nat, j: nat, before: real, pw: real, after: real)
    requires k == j + 1 && k <= |exps| && j < |pt|
    requires before == MonomialValue(exps, pt, j) && pw == Power(pt[j], exps[j]) && after == MonomialValue(exps, pt, k)
    ensures after == Product(before, pw)
  {
  }

  /** A successful evaluation encloses p's exact value at every point of the box. */
  lemma MEvalEncloses(p: MPoly, x: seq<Interval>, pt: seq<real>)
    requires InBox(x, pt) && MEvalInterval(p, x).Ok?
    ensures Contains(MEvalInterval(p, x).value, MEval(p, pt))
  {
    MEvalPrefixEncloses(p, x, pt, |p.terms|);
  }

  lemma {:induction false} MEvalPrefixEncloses(p: MPoly, x: seq<Interval>, pt: seq<real>, k: nat)
    requires k <= |p.terms| && InBox(x, pt) && MEvalPrefix(p, x, k).Ok?
    ensures Contains(MEvalPrefix(p, x, k).value, EvalPrefix(p, pt, k))
    decreases k
  {
    if k > 0 {
      var j: nat := k - 1;
      var t := p.terms[j];
      MEvalPrefixStep(p, x, k, j);
      MEvalPrefixEncloses(p, x, pt, j);
      FoldVarsEncloses(x, t.exponents, pt, |t.exponents|);
      var mv := MonomialValue(t.exponents, pt, |t.exponents|);
      var tv := TermValue(t, pt);
      TermValueProduct(t, pt, mv, tv);
      ScaledSumEncloses(MEvalPrefix(p, x, j).value, TermVars(x, t).value, t.coefficient, EvalPrefix(p, pt, j), mv, tv);
    }
  }

  lemma MEvalPrefixStep(p: MPoly, x: seq<Interval>, k: nat, j: nat)
    requires k == j + 1 && k <= |p.terms|
    ensures MEvalPrefix(p, x, k) == AddMonomial(MEvalPrefix(p, x, j), TermVars(x, p.terms[j]), p.terms[j].coefficient)
  {
  }

  lemma TermValueProduct(t: Term, pt: seq<real>, mv: real, tv: real)
    requires mv == MonomialValue(t.exponents, pt, |t.exponents|) && tv == TermValue(t, pt)
    ensures tv == Product(mv, t.coefficient)
  {
  }

  // ---------------------------------------------------------------------
  // Rational<MPoly>.evaluate
  // ---------------------------------------------------------------------

  /** A quotient of two polynomials of one ring. */
  datatype RationalFunction = RationalFunction(numerator: MPoly, denominator: MPoly)

  /** Numerator interval ÷ denominator interval; the numerator's failure comes first. */
  function REvalInterval(f: RationalFunction, x: seq<Interval>): Result<Interval> {
    match MEvalInterval(f.numerator, x)
    case Err(e) => Err(e)
    case Ok(n) =>
      match MEvalInterval(f.denominator, x)
      case Err(e) => Err(e)
      case Ok(d) => Div(n, d)
  }

  /** `Rational<MPoly>.evaluate(vararg x)`. */
  method EvaluateRational(f: RationalFunction, x: seq<Interval>) returns (r: Result<Interval>)
    ensures r == REvalInterval(f, x)
  {
    var numerator := EvaluateMPoly(f.numerator, x);
    if numerator.Err? {
      return Err(numerator.error);
    }
    var denominator := EvaluateMPoly(f.denominator, x);
    if denominator.Err? {
      return Err(denominator.error);
    }
    return Div(numerator.value, denominator.value);
  }

  /** `Rational<MPoly>.evaluate(vars, params)`: the parameters come first in the box. */
  method EvaluateRationalWith(f: RationalFunction, vars: seq<Interval>, params: seq<Interval>) returns (r: Result<Interval>)
    ensures r == REvalInterval(f, params + vars)
  {
    r := EvaluateRational(f, params + vars);
  }

  /**
   * A successful rational evaluation excludes zero from the denominator's
   * range over the box and encloses the exact quotient at every point of it.
   */
  lemma REvalEncloses(f: RationalFunction, x: seq<Interval>, pt: seq<real>)
    requires InBox(x, pt) && REvalInterval(f, x).Ok?
    ensures MEval(f.denominator, pt) != 0.0
    ensures Contains(REvalInterval(f, x).value, MEval(f.numerator, pt) / MEval(f.denominator, pt))
  {
    var n := MEvalInterval(f.numerator, x).value;
    var d := MEvalInterval(f.denominator, x).value;
    MEvalEncloses(f.numerator, x, pt);
    MEvalEncloses(f.denominator, x, pt);
    QuotientEncloses(n, d, MEval(f.numerator, pt), MEval(f.denominator, pt));
  }

  lemma QuotientEncloses(n: Interval, d: Interval, a: real, b: real)
    requires Contains(n, a) && Contains(d, b) && Div(n, d).Ok?
    ensures b != 0.0 && Contains(Div(n, d).value, a / b)
  {
    var q := a / b;
    assert q * b == a;
    DivEncloses(n, d, a, b, q);
  }

  /** Failure of the rational evaluation: a missing variable, or zero in the denominator's range. */
  lemma REvalFails(f: RationalFunction, x: seq<Interval>)
    ensures REvalInterval(f, x).Err? <==>
      !Covers(f.numerator, x) || !Covers(f.denominator, x) ||
      (MEvalInterval(f.denominator, x).Ok? && HasZero(MEvalInterval(f.denominator, x).value))
  {
    MEvalFails(f.numerator, x);
    MEvalFails(f.denominator, x);
  }

  // ---------------------------------------------------------------------
  // mapInto
  // ---------------------------------------------------------------------

  /** BigInteger division of a rational's numerator by its denominator: truncation toward zero. */
  function TruncateTowardZero(v: real): (r: int)
    ensures v >= 0.0 ==> r as real <= v < r as real + 1.0
    ensures v < 0.0 ==> r as real - 1.0 < v <= r as real
  {
    if v >= 0.0 then v.Floor else -((-v).Floor)
  }

  /**
   * `NumQ.mapInto(bounds, max)`: the position of v in bounds scaled to
   * max and truncated; a point interval divides by zero.
   */
  function MapInto(v: real, bounds: Interval, max: int): (r: Result<int>)
    ensures r.Err? <==> bounds.low == bounds.high
    ensures r.Err? ==> r.error == DivisionByZero
  {
    if bounds.high - bounds.low == 0.0 then Err(DivisionByZero)
    else Ok(Wrap32(TruncateTowardZero(Scaled(v, bounds, max))))
  }

  /** The position of v in bounds, as a fraction of the width, times max. */
  function Scaled(v: real, bounds: Interval, max: int): real
    requires bounds.low < bounds.high
  {
    ((v - bounds.low) / (bounds.high - bounds.low)) * max as real
  }

  /** A value of the interval lands in [0, max], at 0 for the low end and at max for the high end. */
  lemma MapIntoRange(v: real, bounds: Interval, max: int)
    requires Contains(bounds, v) && bounds.low < bounds.high && 0 <= max < 0x8000_0000
    ensures MapInto(v, bounds, max).Ok?
    ensures 0 <= MapInto(v, bounds, max).value <= max
    ensures v == bounds.low ==> MapInto(v, bounds, max).value == 0
    ensures v == bounds.high ==> MapInto(v, bounds, max).value == max
  {
    var offset := v - bounds.low;
    var width := bounds.high - bounds.low;
    var fraction := offset / width;
    var scaled := Scaled(v, bounds, max);
    FractionInUnit(offset, width, fraction);
    ScaledFraction(fraction, max as real, scaled);
    var n := TruncateTowardZero(scaled);
    TruncateInRange(scaled, max, n);
    SmallInt32(n);
  }

  lemma FractionInUnit(a: real, b: real, f: real)
    requires 0.0 <= a <= b && b > 0.0 && f == a / b
    ensures 0.0 <= f <= 1.0
    ensures a == 0.0 ==> f == 0.0
    ensures a == b ==> f == 1.0
  {
  }

  lemma ScaledFraction(f: real, m: real, s: real)
    requires 0.0 <= f <= 1.0 && m >= 0.0 && s == f * m
    ensures 0.0 <= s <= m
    ensures f == 0.0 ==> s == 0.0
    ensures f == 1.0 ==> s == m
  {
  }

  lemma TruncateInRange(s: real, m: int, n: int)
    requires 0.0 <= s <= m as real && n == TruncateTowardZero(s)
    ensures 0 <= n <= m
    ensures s == 0.0 ==> n == 0
    ensures s == m as real ==> n == m
  {
  }

  lemma SmallInt32(n: int)
    requires -0x8000_0000 <= n < 0x8000_0000
    ensures Wrap32(n) == n
  {
  }
}
