/** The false position (regula falsi) root finder of false_position_method.py.
    Floats are exact reals; the function under study is an arbitrary total
    function `f: real -> real`. The per-iteration debug line is modelled as a
    log of records that the method returns. */
module FalsePosition {

  /** How a call of `regula_falsi` ends: the ValueError it raises for a bracket
      whose endpoints have the same sign, the ZeroDivisionError of the
      interpolation formula when fa == fb, the UnboundLocalError of the final
      `return xr` when the loop never ran, or the value it returns. */
  datatype Outcome =
    | SameSignError
    | ZeroDivisionError
    | UnboundXr
    | Returned(xr: real)

  /** One iteration as the debug line prints it: the bracket, the interpolated
      point and the function value there. */
  datatype Record = Record(a: real, b: real, xr: real, fxr: real)

  function Abs(x: real): real {
    if x < 0.0 then -x else x
  }

  function Min(x: real, y: real): real {
    if x <= y then x else y
  }

  function Max(x: real, y: real): real {
    if x <= y then y else x
  }

  /** x lies in the closed interval spanned by a and b (in either order). */
  predicate Between(x: real, a: real, b: real) {
    Min(a, b) <= x <= Max(a, b)
  }

  /** x and y have no strict common sign (what the entry check admits): one
      is <= 0 and the other >= 0. */
  predicate NoCommonSign(x: real, y: real) {
    (x <= 0.0 && 0.0 <= y) || (0.0 <= x && y <= 0.0)
  }

  /** x and y have strictly opposite signs. */
  predicate OppositeSigns(x: real, y: real) {
    (x < 0.0 && 0.0 < y) || (0.0 < x && y < 0.0)
  }

  /** The sign tests the source writes as products, in terms of signs. */
  lemma ProductSign(x: real, y: real)
    ensures x * y > 0.0 <==> !NoCommonSign(x, y)
    ensures x * y < 0.0 <==> OppositeSigns(x, y)
  {
    if (x > 0.0 && y > 0.0) || (x < 0.0 && y < 0.0) {
      assert x * y > 0.0;
    } else if OppositeSigns(x, y) {
      assert x * y < 0.0;
    } else {
      assert x == 0.0 || y == 0.0;
    }
  }

  /** The false-position formula: where the chord through (a, fa) and (b, fb)
      crosses zero. */
  function FalsePositionPoint(a: real, b: real, fa: real, fb: real): real
    requires fa != fb
  {
    b - fb * (a - b) / (fa - fb)
  }

  /** The bracket after an iteration that did not converge: b moves to xr when
      f(a) and f(xr) have strictly opposite signs, otherwise a moves to xr. */
  function Narrow(f: real -> real, rec: Record): (real, real) {
    if f(rec.a) * rec.fxr < 0.0 then (rec.a, rec.xr) else (rec.xr, rec.b)
  }

  /** The bracket at the start of iteration |log|: the initial one, or the one
      the last logged iteration narrowed to. */
  function NextBracket(f: real -> real, a0: real, b0: real, log: seq<Record>): (real, real) {
    if log == [] then (a0, b0) else Narrow(f, log[|log| - 1])
  }

  /** One iteration on the bracket (rec.a, rec.b): the endpoint values differ,
      xr is the formula evaluated on f at the endpoints and fxr is f(xr). */
  predicate IsStep(f: real -> real, rec: Record) {
    && f(rec.a) != f(rec.b)
    && rec.xr == FalsePositionPoint(rec.a, rec.b, f(rec.a), f(rec.b))
    && rec.fxr == f(rec.xr)
  }

  /** log is the run so far from the bracket (a0, b0): each record is a step
      on the bracket the earlier records lead to, and every record but the
      last did not converge. */
  predicate IsTrace(f: real -> real, a0: real, b0: real, tol: real, log: seq<Record>)
    decreases |log|
  {
    log == [] ||
    var prefix := log[..|log| - 1];
    var rec := log[|log| - 1];
    && IsTrace(f, a0, b0, tol, prefix)
    && (prefix == [] || Abs(prefix[|prefix| - 1].fxr) >= tol)
    && (rec.a, rec.b) == NextBracket(f, a0, b0, prefix)
    && IsStep(f, rec)
  }

  /** r and log are what regula_falsi(f, a0, b0, tol, maxIter) ends with:
      - it raises ValueError, before any interpolation, exactly when
        f(a0) * f(b0) > 0;
      - log is a run from (a0, b0) with at most maxIter iterations;
      - with maxIter <= 0 the loop never runs and `return xr` finds xr unbound;
      - a returned value is the last xr, and either it converged (|f(xr)| < tol)
        or the cap was reached: the caller cannot tell the two apart;
      - a ZeroDivisionError happens at an iteration below the cap, after a
        step that did not converge, on a bracket with equal values at both ends. */
  predicate IsRun(f: real -> real, a0: real, b0: real, tol: real, maxIter: int, r: Outcome, log: seq<Record>) {
    && IsTrace(f, a0, b0, tol, log)
    && (r == SameSignError <==> f(a0) * f(b0) > 0.0)
    && (r == SameSignError ==> log == [])
    && (log == [] || |log| <= maxIter)
    && (r == UnboundXr <==> NoCommonSign(f(a0), f(b0)) && maxIter <= 0)
    && (r.Returned? ==>
          && log != []
          && r.xr == log[|log| - 1].xr
          && (Abs(log[|log| - 1].fxr) < tol || |log| == maxIter))
    && (r == ZeroDivisionError ==>
          && |log| < maxIter
          && (log == [] || Abs(log[|log| - 1].fxr) >= tol)
          && f(NextBracket(f, a0, b0, log).0) == f(NextBracket(f, a0, b0, log).1))
  }

  /** regula_falsi(f, a0, b0, tol, maxIter). `log` holds one record per
      evaluation of the formula, in order; the loop keeps fa == f(a) and
      fb == f(b) for the current endpoints. */
  method RegulaFalsi(f: real -> real, a0: real, b0: real, tol: real, maxIter: int)
    returns (r: Outcome, log: seq<Record>)
    ensures IsRun(f, a0, b0, tol, maxIter, r, log)
  {
    var fa := f(a0);
    var fb := f(b0);
    log := [];
    ProductSign(fa, fb);
    if fa * fb > 0.0 {
      return SameSignError, log;
    }
    var a, b := a0, b0;
    r := UnboundXr;
    var i := 0;
    while i < maxIter
      invariant 0 <= i && (i == 0 || i <= maxIter)
      invariant |log| == i
      invariant fa == f(a) && fb == f(b)
      invariant IsTrace(f, a0, b0, tol, log)
      invariant (a, b) == NextBracket(f, a0, b0, log)
      invariant i == 0 ==> r == UnboundXr
      invariant i > 0 ==> r == Returned(log[i - 1].xr) && Abs(log[i - 1].fxr) >= tol
    {
      if fa - fb == 0.0 {
        return ZeroDivisionError, log;
      }
      var xr := FalsePositionPoint(a, b, fa, fb);
      var fxr := f(xr);
      ExtendTrace(f, a0, b0, tol, log, Record(a, b, xr, fxr));
      log := log + [Record(a, b, xr, fxr)];
      r := Returned(xr);
      if Abs(fxr) < tol {
        return;
      }
      if fa * fxr < 0.0 {
        b := xr;
        fb := fxr;
      } else {
        a := xr;
        fa := fxr;
      }
      i := i + 1;
    }
  }

  /** A step on the next bracket extends a run whose last step did not converge. */
  lemma ExtendTrace(f: real -> real, a0: real, b0: real, tol: real, log: seq<Record>, rec: Record)
    requires IsTrace(f, a0, b0, tol, log)
    requires log == [] || Abs(log[|log| - 1].fxr) >= tol
    requires (rec.a, rec.b) == NextBracket(f, a0, b0, log) && IsStep(f, rec)
    ensures IsTrace(f, a0, b0, tol, log + [rec])
  {
    assert (log + [rec])[..|log|] == log;
  }

  /** When the endpoint values have no strict common sign and differ, the
      interpolated point lies in the closed bracket. */
  lemma PointBetween(a: real, b: real, fa: real, fb: real)
    requires NoCommonSign(fa, fb) && fa != fb
    ensures Between(FalsePositionPoint(a, b, fa, fb), a, b)
  {
    var t := fb / (fb - fa);
    assert FalsePositionPoint(a, b, fa, fb) == b + t * (a - b);
    if fb - fa > 0.0 {
      assert fb <= fb - fa;
    } else {
      assert fb - fa <= fb;
    }
    InterpolationBetween(a, b, t);
  }

  /** b + t (a - b) lies between a and b for every weight t in [0, 1]. */
  lemma InterpolationBetween(a: real, b: real, t: real)
    requires 0.0 <= t <= 1.0
    ensures Between(b + t * (a - b), a, b)
  {
    if a <= b {
      ProductNonnegative(t, b - a);
      ProductNonnegative(1.0 - t, b - a);
      assert t * (a - b) == -(t * (b - a));
      assert (1.0 - t) * (b - a) == (b - a) - t * (b - a);
    } else {
      ProductNonnegative(t, a - b);
      ProductNonnegative(1.0 - t, a - b);
      assert (1.0 - t) * (a - b) == (a - b) - t * (a - b);
    }
  }

  lemma ProductNonnegative(x: real, y: real)
    requires 0.0 <= x && 0.0 <= y
    ensures 0.0 <= x * y
  {
  }

  /** An endpoint whose value is zero is exactly where the chord crosses zero. */
  lemma PointAtRootEndpoint(a: real, b: real, fa: real, fb: real)
    requires fa != fb
    ensures fa == 0.0 ==> FalsePositionPoint(a, b, fa, fb) == a
    ensures fb == 0.0 ==> FalsePositionPoint(a, b, fa, fb) == b
  {
    if fa == 0.0 {
      assert fb * (a - b) / (fa - fb) == b - a;
    }
  }

  /** One update keeps the bracket admissible (strictly so when f(xr) != 0 and
      it was strict before) and replaces exactly one endpoint with a point
      inside it, so the new bracket is a sub-interval of the old one. */
  lemma NarrowKeepsBracket(f: real -> real, rec: Record)
    requires IsStep(f, rec) && NoCommonSign(f(rec.a), f(rec.b))
    ensures var (a, b) := Narrow(f, rec);
      && ((a, b) == (rec.a, rec.xr) || (a, b) == (rec.xr, rec.b))
      && Between(rec.xr, rec.a, rec.b)
      && Between(a, rec.a, rec.b) && Between(b, rec.a, rec.b)
      && NoCommonSign(f(a), f(b))
      && (OppositeSigns(f(rec.a), f(rec.b)) && rec.fxr != 0.0 ==> OppositeSigns(f(a), f(b)))
  {
    PointBetween(rec.a, rec.b, f(rec.a), f(rec.b));
    PointAtRootEndpoint(rec.a, rec.b, f(rec.a), f(rec.b));
    ProductSign(f(rec.a), rec.fxr);
  }

  /** Every prefix of a run is a run. */
  lemma {:induction false} TracePrefix(f: real -> real, a0: real, b0: real, tol: real, log: seq<Record>, n: nat)
    requires IsTrace(f, a0, b0, tol, log) && n <= |log|
    ensures IsTrace(f, a0, b0, tol, log[..n])
    decreases |log|
  {
    if n < |log| {
      TracePrefix(f, a0, b0, tol, log[..|log| - 1], n);
      assert log[..|log| - 1][..n] == log[..n];
    } else {
      assert log[..n] == log;
    }
  }

  /** Record k of a run is a step on the bracket the first k records lead
      to, and it did not converge unless it is the last. */
  lemma TraceAt(f: real -> real, a0: real, b0: real, tol: real, log: seq<Record>, k: nat)
    requires IsTrace(f, a0, b0, tol, log) && k < |log|
    ensures IsStep(f, log[k]) && (log[k].a, log[k].b) == NextBracket(f, a0, b0, log[..k])
    ensures k + 1 < |log| ==> Abs(log[k].fxr) >= tol
  {
    TracePrefix(f, a0, b0, tol, log, k + 1);
    assert log[..k + 1][..k] == log[..k];
    if k + 1 < |log| {
      TracePrefix(f, a0, b0, tol, log, k + 2);
      assert log[..k + 2][..k + 1] == log[..k + 1];
    }
  }

  /** Along a run that starts from an admissible bracket, every bracket stays
      admissible and inside the initial one, and so does every interpolated
      point. */
  lemma {:induction false} TraceStaysInBracket(f: real -> real, a0: real, b0: real, tol: real, log: seq<Record>)
    requires IsTrace(f, a0, b0, tol, log) && NoCommonSign(f(a0), f(b0))
    ensures var (a, b) := NextBracket(f, a0, b0, log);
      NoCommonSign(f(a), f(b)) && Between(a, a0, b0) && Between(b, a0, b0)
    ensures forall k :: 0 <= k < |log| ==>
      && NoCommonSign(f(log[k].a), f(log[k].b))
      && Between(log[k].xr, log[k].a, log[k].b)
      && Between(log[k].xr, a0, b0)
  {
    if log != [] {
      var prefix := log[..|log| - 1];
      var rec := log[|log| - 1];
      TraceStaysInBracket(f, a0, b0, tol, prefix);
      NarrowKeepsBracket(f, rec);
      forall k | 0 <= k < |log|
        ensures NoCommonSign(f(log[k].a), f(log[k].b))
        ensures Between(log[k].xr, log[k].a, log[k].b) && Between(log[k].xr, a0, b0)
      {
        if k < |prefix| {
          assert log[k] == prefix[k];
        }
      }
    }
  }

  /** Each bracket of a run lies inside the one before it. */
  lemma NestedBrackets(f: real -> real, a0: real, b0: real, tol: real, log: seq<Record>, k: nat)
    requires IsTrace(f, a0, b0, tol, log) && NoCommonSign(f(a0), f(b0))
    requires k + 1 < |log|
    ensures Between(log[k + 1].a, log[k].a, log[k].b) && Between(log[k + 1].b, log[k].a, log[k].b)
  {
    TraceAt(f, a0, b0, tol, log, k);
    TraceAt(f, a0, b0, tol, log, k + 1);
    var prefix := log[..k + 1];
    TracePrefix(f, a0, b0, tol, log, k + 1);
    TraceStaysInBracket(f, a0, b0, tol, prefix);
    assert prefix[k] == log[k];
    NarrowKeepsBracket(f, log[k]);
  }

  /** With a positive tolerance and a strict sign change at the start, every
      bracket of the run keeps a strict sign change, so the formula never
      divides by zero. */
  lemma {:induction false} TraceKeepsSignChange(f: real -> real, a0: real, b0: real, tol: real, log: seq<Record>)
    requires IsTrace(f, a0, b0, tol, log) && OppositeSigns(f(a0), f(b0)) && tol > 0.0
    requires log == [] || Abs(log[|log| - 1].fxr) >= tol
    ensures var (a, b) := NextBracket(f, a0, b0, log); OppositeSigns(f(a), f(b))
  {
    if log != [] {
      var prefix := log[..|log| - 1];
      TraceKeepsSignChange(f, a0, b0, tol, prefix);
      NarrowKeepsBracket(f, log[|log| - 1]);
    }
  }

  /** A run is determined by f, the bracket and the tolerance: two runs of the
      same length are equal. */
  lemma {:induction false} TraceUnique(f: real -> real, a0: real, b0: real, tol: real, log1: seq<Record>, log2: seq<Record>)
    requires IsTrace(f, a0, b0, tol, log1) && IsTrace(f, a0, b0, tol, log2)
    requires |log1| == |log2|
    ensures log1 == log2
  {
    if log1 != [] {
      var n := |log1| - 1;
      TraceUnique(f, a0, b0, tol, log1[..n], log2[..n]);
      assert log1 == log1[..n] + [log1[n]];
      assert log2 == log2[..n] + [log2[n]];
    }
  }

  /** The outcome and the log are a function of the inputs. */
  lemma RunUnique(f: real -> real, a0: real, b0: real, tol: real, maxIter: int,
                  r1: Outcome, log1: seq<Record>, r2: Outcome, log2: seq<Record>)
    requires IsRun(f, a0, b0, tol, maxIter, r1, log1)
    requires IsRun(f, a0, b0, tol, maxIter, r2, log2)
    ensures r1 == r2 && log1 == log2
  {
    if |log1| <= |log2| {
      ShorterRunIsSame(f, a0, b0, tol, maxIter, r1, log1, r2, log2);
    } else {
      ShorterRunIsSame(f, a0, b0, tol, maxIter, r2, log2, r1, log1);
    }
  }

  lemma ShorterRunIsSame(f: real -> real, a0: real, b0: real, tol: real, maxIter: int,
                         r1: Outcome, log1: seq<Record>, r2: Outcome, log2: seq<Record>)
    requires IsRun(f, a0, b0, tol, maxIter, r1, log1)
    requires IsRun(f, a0, b0, tol, maxIter, r2, log2)
    requires |log1| <= |log2|
    ensures r1 == r2 && log1 == log2
  {
    var n := |log1|;
    TracePrefix(f, a0, b0, tol, log2, n);
    TraceUnique(f, a0, b0, tol, log1, log2[..n]);
    if n < |log2| {
      // log2 goes on past log1, so log1 ended neither by converging nor on a
      // bracket with equal values, nor at the cap
      TraceAt(f, a0, b0, tol, log2, n);
      if r1.Returned? && n < maxIter {
        TraceAt(f, a0, b0, tol, log2, n - 1);
      }
      assert false;
    }
    assert log1 == log2;
  }

  /** With a positive tolerance, an admissible bracket and at least one
      iteration allowed, the ZeroDivisionError happens exactly when both
      endpoints are roots (then at the very first evaluation of the formula). */
  lemma RunZeroDivision(f: real -> real, a0: real, b0: real, tol: real, maxIter: int, r: Outcome, log: seq<Record>)
    requires IsRun(f, a0, b0, tol, maxIter, r, log)
    requires tol > 0.0 && maxIter > 0 && NoCommonSign(f(a0), f(b0))
    ensures r == ZeroDivisionError <==> f(a0) == 0.0 && f(b0) == 0.0
    ensures r == ZeroDivisionError ==> log == []
  {
    ProductSign(f(a0), f(b0));
    if r == ZeroDivisionError && log != [] {
      TraceAt(f, a0, b0, tol, log, 0);
      assert log[..0] == [];
      var rec := log[0];
      PointAtRootEndpoint(a0, b0, f(a0), f(b0));
      assert Abs(rec.fxr) >= tol;
      assert OppositeSigns(f(a0), f(b0));
      TraceKeepsSignChange(f, a0, b0, tol, log);
      assert false;
    }
    if r.Returned? {
      TraceAt(f, a0, b0, tol, log, 0);
      assert log[..0] == [];
    }
  }

  /** With a positive tolerance, when exactly one endpoint is a root the first
      iteration returns that endpoint. */
  lemma RunRootEndpoint(f: real -> real, a0: real, b0: real, tol: real, maxIter: int, r: Outcome, log: seq<Record>)
    requires IsRun(f, a0, b0, tol, maxIter, r, log)
    requires tol > 0.0 && maxIter > 0
    requires (f(a0) == 0.0) != (f(b0) == 0.0)
    ensures r == Returned(if f(a0) == 0.0 then a0 else b0) && |log| == 1
  {
    ProductSign(f(a0), f(b0));
    RunZeroDivision(f, a0, b0, tol, maxIter, r, log);
    TraceAt(f, a0, b0, tol, log, 0);
    assert log[..0] == [];
    PointAtRootEndpoint(a0, b0, f(a0), f(b0));
  }

  /** A returned value lies in the initial bracket; it is a root to within
      tol, unless the cap was reached. */
  lemma RunReturnsInBracket(f: real -> real, a0: real, b0: real, tol: real, maxIter: int, r: Outcome, log: seq<Record>)
    requires IsRun(f, a0, b0, tol, maxIter, r, log) && r.Returned?
    ensures Between(r.xr, a0, b0)
    ensures Abs(f(r.xr)) < tol || |log| == maxIter
  {
    ProductSign(f(a0), f(b0));
    TraceStaysInBracket(f, a0, b0, tol, log);
    TraceAt(f, a0, b0, tol, log, |log| - 1);
  }
}
