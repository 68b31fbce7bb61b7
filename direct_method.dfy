/** The closed-form solver for a x^2 + b x + c = 0 (direct_method.py).
    Floats are exact reals here; the square root of the discriminant, which the
    source computes with `** 0.5`, is supplied by the caller as a witness
    `sqrtD` with sqrtD >= 0 and sqrtD * sqrtD == b^2 - 4ac. */
module DirectMethod {

  /** The three shapes `solve_quadratic` returns: a message string, a one-element
      tuple, or a two-element tuple. */
  datatype Roots =
    | Message(text: string)
    | One(root: real)
    | Two(root1: real, root2: real)

  const NoSolutionText: string := "No solution or infinite solutions (if c=0)"
  const NoRealRootText: string := "No real root exists!"

  function Discriminant(a: real, b: real, c: real): real {
    b * b - 4.0 * a * c
  }

  /** s is the non-negative square root of d. */
  predicate IsSqrt(s: real, d: real) {
    0.0 <= s && s * s == d
  }

  /** The value of the polynomial a x^2 + b x + c at x. */
  function Eval(a: real, b: real, c: real, x: real): real {
    a * x * x + b * x + c
  }

  predicate IsRoot(a: real, b: real, c: real, x: real) {
    Eval(a, b, c, x) == 0.0
  }

  /** solve_quadratic(a, b, c). Every number it returns is a root: the
      well-formedness of the body also shows that it divides by b only when
      b != 0 and by 2a only when a != 0. */
  function SolveQuadratic(a: real, b: real, c: real, sqrtD: real): (r: Roots)
    requires a != 0.0 && Discriminant(a, b, c) >= 0.0 ==> IsSqrt(sqrtD, Discriminant(a, b, c))
    ensures r.One? ==> IsRoot(a, b, c, r.root)
    ensures r.Two? ==> IsRoot(a, b, c, r.root1) && IsRoot(a, b, c, r.root2)
  {
    if a == 0.0 then
      if b == 0.0 then Message(NoSolutionText) else One(-c / b)
    else
      var d := Discriminant(a, b, c);
      if d < 0.0 then
        Message(NoRealRootText)
      else
        var root1 := (-b + sqrtD) / (2.0 * a);
        var root2 := (-b - sqrtD) / (2.0 * a);
        FormulaGivesRoot(a, b, c, sqrtD, root1);
        FormulaGivesRoot(a, b, c, sqrtD, root2);
        Two(root1, root2)
  }

  /** Completing the square: 4a (a x^2 + b x + c) == (2 a x + b)^2 - D. */
  lemma CompletedSquare(a: real, b: real, c: real, x: real)
    ensures 4.0 * a * Eval(a, b, c, x) == (2.0 * a * x + b) * (2.0 * a * x + b) - Discriminant(a, b, c)
  {
  }

  /** Either quadratic formula (with +sqrtD or with -sqrtD) yields a root. */
  lemma FormulaGivesRoot(a: real, b: real, c: real, sqrtD: real, x: real)
    requires a != 0.0 && IsSqrt(sqrtD, Discriminant(a, b, c))
    requires x == (-b + sqrtD) / (2.0 * a) || x == (-b - sqrtD) / (2.0 * a)
    ensures IsRoot(a, b, c, x)
  {
    var y := 2.0 * a * x + b;
    assert y == sqrtD || y == -sqrtD;
    assert y * y == Discriminant(a, b, c);
    CompletedSquare(a, b, c, x);
    assert 4.0 * a * Eval(a, b, c, x) == 0.0;
  }

  /** a == 0 and b == 0 gives the single message, whatever c is; the message is
      right: no x solves c == 0 when c != 0, and every x does when c == 0. */
  lemma DegenerateCase(a: real, b: real, c: real, sqrtD: real, x: real)
    requires a == 0.0 && b == 0.0
    ensures SolveQuadratic(a, b, c, sqrtD) == Message(NoSolutionText)
    ensures IsRoot(a, b, c, x) <==> c == 0.0
  {
  }

  /** a == 0 and b != 0 gives the one-element tuple (-c/b,), which is the
      only solution of b x + c == 0. */
  lemma LinearCase(a: real, b: real, c: real, sqrtD: real, x: real)
    requires a == 0.0 && b != 0.0
    ensures SolveQuadratic(a, b, c, sqrtD) == One(-c / b)
    ensures IsRoot(a, b, c, x) <==> x == -c / b
  {
    if IsRoot(a, b, c, x) {
      assert b * x == -c;
    }
  }

  /** a != 0 and a negative discriminant gives "No real root exists!", and
      indeed no real x solves the equation. */
  lemma NoRealRootCase(a: real, b: real, c: real, sqrtD: real, x: real)
    requires a != 0.0 && Discriminant(a, b, c) < 0.0
    ensures SolveQuadratic(a, b, c, sqrtD) == Message(NoRealRootText)
    ensures !IsRoot(a, b, c, x)
  {
    CompletedSquare(a, b, c, x);
    SquareNonnegative(2.0 * a * x + b);
  }

  /** a != 0 and D >= 0 gives the pair ((-b + sqrtD)/2a, (-b - sqrtD)/2a). */
  lemma TwoRootsShape(a: real, b: real, c: real, sqrtD: real)
    requires a != 0.0 && Discriminant(a, b, c) >= 0.0 && IsSqrt(sqrtD, Discriminant(a, b, c))
    ensures SolveQuadratic(a, b, c, sqrtD) == Two((-b + sqrtD) / (2.0 * a), (-b - sqrtD) / (2.0 * a))
  {
  }

  /** a != 0 and D >= 0 gives a pair whose first element uses +sqrtD, so the
      pair is descending when a > 0 and ascending when a < 0; its two
      elements are equal exactly when D == 0. */
  lemma TwoRootsCase(a: real, b: real, c: real, sqrtD: real)
    requires a != 0.0 && Discriminant(a, b, c) >= 0.0 && IsSqrt(sqrtD, Discriminant(a, b, c))
    ensures var r := SolveQuadratic(a, b, c, sqrtD);
      && r.Two?
      && (a > 0.0 ==> r.root1 >= r.root2)
      && (a < 0.0 ==> r.root1 <= r.root2)
      && (r.root1 == r.root2 <==> Discriminant(a, b, c) == 0.0)
  {
    TwoRootsShape(a, b, c, sqrtD);
    var r1 := (-b + sqrtD) / (2.0 * a);
    var r2 := (-b - sqrtD) / (2.0 * a);
    RootGap(a, b, sqrtD);
    QuotientSign(sqrtD, a);
    if sqrtD != 0.0 {
      SquarePositive(sqrtD);
    }
  }

  /** The distance between the two formula values is sqrtD / a. */
  lemma RootGap(a: real, b: real, s: real)
    requires a != 0.0
    ensures (-b + s) / (2.0 * a) - (-b - s) / (2.0 * a) == s / a
  {
    assert (-b + s) / (2.0 * a) - (-b - s) / (2.0 * a) == ((-b + s) - (-b - s)) / (2.0 * a);
  }

  /** A non-negative number divided by a has the sign of a, and is zero only
      when the number is. */
  lemma QuotientSign(s: real, a: real)
    requires 0.0 <= s && a != 0.0
    ensures a > 0.0 ==> s / a >= 0.0
    ensures a < 0.0 ==> s / a <= 0.0
    ensures s / a == 0.0 <==> s == 0.0
  {
    assert s / a * a == s;
  }

  lemma SquarePositive(s: real)
    requires s != 0.0
    ensures s * s > 0.0
  {
    if s < 0.0 {
      assert s * s == (-s) * (-s);
    }
  }

  /** Squares are strictly increasing on the non-negative reals. */
  lemma SquareBelow(s: real, t: real)
    requires 0.0 <= s < t
    ensures s * s < t * t
  {
    var e := t - s;
    assert 0.0 < t * e;
    assert 0.0 <= s * e;
    assert t * t == s * s + s * e + t * e;
  }

  /** The pair is complete: when a != 0 every real root of the equation is one
      of the two returned values (so "No real root exists!" is never wrong and
      no root is missed). */
  lemma TwoRootsComplete(a: real, b: real, c: real, sqrtD: real, x: real)
    requires a != 0.0 && IsRoot(a, b, c, x)
    requires Discriminant(a, b, c) >= 0.0 ==> IsSqrt(sqrtD, Discriminant(a, b, c))
    ensures SolveQuadratic(a, b, c, sqrtD).Two?
    ensures x == SolveQuadratic(a, b, c, sqrtD).root1 || x == SolveQuadratic(a, b, c, sqrtD).root2
  {
    var d := Discriminant(a, b, c);
    var y := 2.0 * a * x + b;
    RootSquare(a, b, c, x);
    SquareNonnegative(y);
    TwoRootsShape(a, b, c, sqrtD);
    var m := if y >= 0.0 then y else -y;
    assert m * m == y * y;
    SqrtUnique(m, sqrtD, d);
    if y == sqrtD {
      LinearSolve(a, x, -b + sqrtD);
    } else {
      LinearSolve(a, x, -b - sqrtD);
    }
  }

  /** At a root, (2 a x + b)^2 is the discriminant. */
  lemma RootSquare(a: real, b: real, c: real, x: real)
    requires a != 0.0 && IsRoot(a, b, c, x)
    ensures (2.0 * a * x + b) * (2.0 * a * x + b) == Discriminant(a, b, c)
  {
    CompletedSquare(a, b, c, x);
  }

  lemma SquareNonnegative(y: real)
    ensures y * y >= 0.0
  {
    if y != 0.0 {
      SquarePositive(y);
    }
  }

  lemma LinearSolve(a: real, x: real, v: real)
    requires a != 0.0 && 2.0 * a * x == v
    ensures x == v / (2.0 * a)
  {
  }

  /** The square-root witness is unique, so the result does not depend on which
      witness the caller supplies. */
  lemma SqrtUnique(s: real, t: real, d: real)
    requires IsSqrt(s, d) && IsSqrt(t, d)
    ensures s == t
  {
    if s < t {
      SquareBelow(s, t);
    } else if t < s {
      SquareBelow(t, s);
    }
  }

  /** The worked examples: x^2 - 5x + 6 gives (3, 2) with 3 first,
      x^2 + 4x + 4 the repeated pair (-2, -2), x^2 + 2x + 5 no real root,
      and 2x + 4 the single root -2. */
  lemma Examples()
    ensures SolveQuadratic(1.0, -5.0, 6.0, 1.0) == Two(3.0, 2.0)
    ensures SolveQuadratic(1.0, 4.0, 4.0, 0.0) == Two(-2.0, -2.0)
    ensures SolveQuadratic(1.0, 2.0, 5.0, 0.0) == Message(NoRealRootText)
    ensures SolveQuadratic(0.0, 2.0, 4.0, 0.0) == One(-2.0)
  {
  }
}
