# Numerical root finders: false position and the quadratic formula

This project models two root-finding routines and proves what they promise.
Python floats are modelled as exact `real` numbers.

- `FalsePosition` (`false_position_method.py`) models `regula_falsi(f, a, b, tol, max_iter)`.
  It rejects a bracket whose endpoint values have a strict common sign. It then
  interpolates the chord through `(a, f(a))` and `(b, f(b))` at most `max_iter`
  times. It stops when `|f(xr)| < tol`, and otherwise replaces one endpoint by
  `xr`. `RegulaFalsi` is a method with a `while` loop over the locals
  `a, b, fa, fb`. Its postcondition is the predicate `IsRun`, which describes
  the whole run:
  - the outcome (the `ValueError`, a division by zero, the unbound `xr` or the
    value returned);
  - the log of iterations that the debug line prints, as records
    `(a, b, xr, f(xr))`.
  `IsTrace` defines, record by record, what a run from a bracket is. The
  lemmas derive the algorithm's properties from it: bracketing, nesting,
  keeping the sign change, the root-at-an-endpoint cases and determinism.
- `DirectMethod` (`direct_method.py`) models `solve_quadratic(a, b, c)` as a
  function. It returns a message string, a one-element tuple or a pair. The
  square root of the discriminant is a caller-supplied witness `sqrtD` with
  `sqrtD >= 0` and `sqrtD * sqrtD == b^2 - 4ac`. The lemmas cover:
  - every case of the analysis;
  - that every returned number is a root;
  - the order of the pair;
  - that no real root is missed;
  - the worked examples.

## Model

| member | source | states |
|---|---|---|
| `FalsePosition.RegulaFalsi` | false_position_method.py:18-57 | The outcome and log satisfy `IsRun`. ValueError is raised exactly when f(a)·f(b) > 0, with nothing evaluated. Each logged iteration applies the formula to f at the current endpoints, on the bracket the previous update produced. There are at most max_iter iterations. With max_iter <= 0 the final `return xr` has no xr. A returned value is the last xr, which either converged or used up the cap. A division by zero happens only on a bracket with equal endpoint values. |
| `FalsePosition.ProductSign` | false_position_method.py:35 | f(a)·f(b) > 0 exactly when the two values have a strict common sign. fa·fxr < 0 exactly when the signs are strictly opposite. |
| `FalsePosition.PointBetween` | false_position_method.py:40 | When the endpoint values have no strict common sign and differ, the interpolated xr lies in the closed interval between a and b. |
| `FalsePosition.InterpolationBetween` | false_position_method.py:40 | b + t(a − b) lies between a and b for every t in [0, 1]. |
| `FalsePosition.PointAtRootEndpoint` | false_position_method.py:40 | If f(a) == 0 the formula gives exactly a. If f(b) == 0 it gives exactly b. |
| `FalsePosition.NarrowKeepsBracket` | false_position_method.py:50-55 | An update replaces exactly one endpoint by xr and keeps the other. The new bracket lies inside the old one. It still has no strict common sign, and it keeps a strict sign change when f(xr) != 0. |
| `FalsePosition.ExtendTrace` | false_position_method.py:38-55 | A step on the current bracket, after an iteration that did not converge, extends a run. |
| `FalsePosition.TracePrefix` | false_position_method.py:38-55 | Every prefix of a run is a run. |
| `FalsePosition.TraceAt` | false_position_method.py:40-47 | Record k applies the formula on the bracket that the first k records lead to. It did not converge unless it is the last record. |
| `FalsePosition.TraceStaysInBracket` | false_position_method.py:35-55 | From an admissible initial bracket, every bracket stays admissible and inside the initial one. Every interpolated point lies in its own bracket and in the initial one. |
| `FalsePosition.NestedBrackets` | false_position_method.py:50-55 | Each bracket of a run lies inside the bracket before it. |
| `FalsePosition.TraceKeepsSignChange` | false_position_method.py:35-55 | With tol > 0 and a strict sign change at entry, every bracket keeps f(a)·f(b) < 0, so the formula never divides by zero. |
| `FalsePosition.TraceUnique` | false_position_method.py:38-55 | Two runs of the same length from the same inputs are equal. |
| `FalsePosition.RunUnique` | false_position_method.py:18-57 | Any two outcome/log pairs that satisfy `IsRun` for the same inputs are equal, so `IsRun` pins down the behaviour. |
| `FalsePosition.ShorterRunIsSame` | false_position_method.py:38-57 | A run cannot continue past another complete run of the same inputs. |
| `FalsePosition.RunZeroDivision` | false_position_method.py:35-46 | With tol > 0, max_iter > 0 and an accepted bracket, the division by zero happens exactly when both endpoints are roots. It then happens at the first formula evaluation. |
| `FalsePosition.RunRootEndpoint` | false_position_method.py:35-47 | With tol > 0, max_iter > 0 and exactly one endpoint a root, the first iteration returns that endpoint. |
| `FalsePosition.RunReturnsInBracket` | false_position_method.py:46-57 | A returned xr lies in the initial bracket. Either abs(f(xr)) < tol, or the cap was exhausted, and the caller gets no signal telling the two apart. |
| `DirectMethod.SolveQuadratic` | direct_method.py:18-33 | A one-element tuple holds a root, and both elements of a pair are roots. The body divides by b only when b != 0 and by 2a only when a != 0. |
| `DirectMethod.CompletedSquare` | direct_method.py:25 | 4a(ax² + bx + c) == (2ax + b)² − (b² − 4ac). |
| `DirectMethod.FormulaGivesRoot` | direct_method.py:30-31 | (−b ± √D)/(2a) solves the equation when a != 0 and D >= 0. |
| `DirectMethod.DegenerateCase` | direct_method.py:18-21 | With a == 0 and b == 0 the result is the single message, whatever c is. Every x is a solution when c == 0 and none is otherwise. |
| `DirectMethod.LinearCase` | direct_method.py:18-23 | With a == 0 and b != 0 the result is the one-element tuple (−c/b,), which is the only solution of bx + c == 0. |
| `DirectMethod.NoRealRootCase` | direct_method.py:25-28 | With a != 0 and D < 0 the result is "No real root exists!", and no real x solves the equation. |
| `DirectMethod.TwoRootsShape` | direct_method.py:25-33 | With a != 0 and D >= 0 the result is the pair ((−b + √D)/2a, (−b − √D)/2a). |
| `DirectMethod.TwoRootsCase` | direct_method.py:30-33 | The pair is descending when a > 0 and ascending when a < 0. Its two elements are equal exactly when D == 0. |
| `DirectMethod.TwoRootsComplete` | direct_method.py:25-33 | With a != 0, every real root of the equation is one of the two returned elements. |
| `DirectMethod.RootSquare` | direct_method.py:25 | At a root, (2ax + b)² equals the discriminant. |
| `DirectMethod.SqrtUnique` | direct_method.py:30-31 | The non-negative square root is unique, so the result does not depend on the witness supplied. |
| `DirectMethod.Examples` | direct_method.py:37-46 | (1, −5, 6) gives (3, 2) with 3 first. (1, 4, 4) gives (−2, −2). (1, 2, 5) gives "No real root exists!". (0, 2, 4) gives (−2,). |

## Left out

- Floating point: IEEE-754 rounding, overflow, NaN and infinities are not modelled. All arithmetic is exact over `real`. The tolerance test `abs(fxr) < tol` is therefore exact too.
- The square root `discriminant**0.5` is not computed. `SolveQuadratic` takes it as a witness `sqrtD`, required to be the non-negative root whenever a != 0 and D >= 0.
- `f_1` (false_position_method.py:5-16) is not part of this model, because it calls `math.cos`. The routine is modelled for an arbitrary total function `f: real -> real`.
- The demo calls and prints (false_position_method.py:59-65, direct_method.py:35-46) are I/O. `DirectMethod.Examples` states the values those calls compute.
- The debug print (false_position_method.py:44) is not output: the method returns it as the record log, and the number formatting is dropped.
- Convergence and its rate are not claimed for regula falsi. They need continuity of `f`, which is beyond the code.
- A Python exception is modelled as an `Outcome` value (`SameSignError`, `ZeroDivisionError`, `UnboundXr`), not as control flow. Its message text is not modelled.
- `newton_raphson_method.py` is not part of this model. It has no logic of its own beyond calls into a symbolic-differentiation library and a library root finder.
- The `a == 0, b == 0` case returns one message for both "no solution" (c != 0) and "infinite solutions" (c == 0), as the code does. `DegenerateCase` proves which of the two holds, but the result does not distinguish them.
