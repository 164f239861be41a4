/** The Gauss-Seidel solver of src/solver.rs.
 *
 *  Decimal values are exact `real`s. The specification is a chain of pure
 *  functions: one row update (`RowUpdate`), the first `rows` updates of a
 *  sweep (`SweepPrefix`), a whole sweep (`Sweep`), the estimate after `k`
 *  sweeps (`Estimates`) and the result of the termination policy
 *  (`Outcome`). The method `Solve` runs the nested loops over an array,
 *  updating the estimate in place, and is proved to return `Outcome`. */
module Solver {
  import opened Wrappers

  /** The validated system `matrix * x = rhs`, with the sweep cap and the tolerance. */
  datatype Equation = Equation(matrix: seq<seq<real>>, rhs: seq<real>, maxIterations: nat, epsilon: real)

  /** The single failure of the solver: no sweep met the tolerance within the cap. */
  datatype SolveError = Diverge

  /** The estimate after some rows of a sweep, and the largest change seen so far. */
  datatype SweepState = SweepState(estimate: seq<real>, delta: real)

  /** Square matrix with one right-hand side entry per row. */
  predicate IsSquare(e: Equation)
  {
    |e.rhs| == |e.matrix| && forall i :: 0 <= i < |e.matrix| ==> |e.matrix[i]| == |e.matrix|
  }

  /** What the solver demands of its caller: a square system and no zero on the diagonal. */
  predicate WellFormed(e: Equation)
  {
    IsSquare(e) && forall i :: 0 <= i < |e.matrix| ==> e.matrix[i][i] != 0.0
  }

  /** The number of unknowns (the matrix's column count, equal to its row count). */
  function Size(e: Equation): nat
  {
    |e.matrix|
  }

  function Abs(x: real): real
  {
    if x < 0.0 then -x else x
  }

  /** The starting estimate: every unknown set to one. */
  function Ones(n: nat): (r: seq<real>)
    ensures |r| == n && forall j :: 0 <= j < n ==> r[j] == 1.0
  {
    seq(n, _ => 1.0)
  }

  /** `row[0] * x[0] + ... + row[upto-1] * x[upto-1]`. */
  function RowProduct(row: seq<real>, x: seq<real>, upto: nat): real
    requires upto <= |row| && upto <= |x|
  {
    if upto == 0 then 0.0 else RowProduct(row, x, upto - 1) + row[upto - 1] * x[upto - 1]
  }

  /** The same sum with the term of column `i` left out. */
  function OffDiagonalSum(row: seq<real>, x: seq<real>, i: nat, upto: nat): real
    requires upto <= |row| && upto <= |x|
  {
    if upto == 0 then 0.0
    else OffDiagonalSum(row, x, i, upto - 1) + (if upto - 1 == i then 0.0 else row[upto - 1] * x[upto - 1])
  }

  /** The off-diagonal sum never reads entry `i` of the estimate. */
  lemma {:induction false} OffDiagonalSumSkipsDiagonal(row: seq<real>, x: seq<real>, i: nat, upto: nat, v: real)
    requires upto <= |row| && upto <= |x| && i < |x|
    ensures OffDiagonalSum(row, x[i := v], i, upto) == OffDiagonalSum(row, x, i, upto)
  {
    if upto > 0 {
      OffDiagonalSumSkipsDiagonal(row, x, i, upto - 1, v);
    }
  }

  /** The full row product is the off-diagonal sum plus the diagonal term. */
  lemma {:induction false} RowProductSplit(row: seq<real>, x: seq<real>, i: nat, upto: nat)
    requires upto <= |row| && upto <= |x|
    ensures RowProduct(row, x, upto)
         == OffDiagonalSum(row, x, i, upto) + (if i < upto then row[i] * x[i] else 0.0)
  {
    if upto > 0 {
      RowProductSplit(row, x, i, upto - 1);
    }
  }

  /** The new value of unknown `i`: it solves row `i` exactly, given the
   *  other unknowns as they stand in `x`. */
  function RowUpdate(e: Equation, x: seq<real>, i: nat): (v: real)
    requires WellFormed(e) && |x| == Size(e) && i < Size(e)
    ensures RowProduct(e.matrix[i], x[i := v], Size(e)) == e.rhs[i]
  {
    var row := e.matrix[i];
    var s := OffDiagonalSum(row, x, i, Size(e));
    var v := (e.rhs[i] - s) / row[i];
    assert row[i] * v == e.rhs[i] - s;
    RowProductSplit(row, x[i := v], i, Size(e));
    OffDiagonalSumSkipsDiagonal(row, x, i, Size(e), v);
    v
  }

  /** The state after rows `0 .. rows-1` of a sweep that started from `x`:
   *  each row reads the estimate as the earlier rows left it. */
  function SweepPrefix(e: Equation, x: seq<real>, rows: nat): (st: SweepState)
    requires WellFormed(e) && |x| == Size(e) && rows <= Size(e)
    ensures |st.estimate| == Size(e)
  {
    if rows == 0 then SweepState(x, 0.0)
    else
      var prev := SweepPrefix(e, x, rows - 1);
      var v := RowUpdate(e, prev.estimate, rows - 1);
      var d := Abs(v - prev.estimate[rows - 1]);
      SweepState(prev.estimate[rows - 1 := v], if d > prev.delta then d else prev.delta)
  }

  /** One full sweep from `x`. */
  function Sweep(e: Equation, x: seq<real>): (st: SweepState)
    requires WellFormed(e) && |x| == Size(e)
    ensures |st.estimate| == Size(e)
  {
    SweepPrefix(e, x, Size(e))
  }

  /** Rows not yet visited still hold the previous sweep's values; a visited
   *  row keeps the value written when it was visited. */
  lemma {:induction false} SweepPrefixFrame(e: Equation, x: seq<real>, rows: nat)
    requires WellFormed(e) && |x| == Size(e) && rows <= Size(e)
    ensures forall j :: rows <= j < Size(e) ==> SweepPrefix(e, x, rows).estimate[j] == x[j]
    ensures forall j :: 0 <= j < rows ==>
      SweepPrefix(e, x, rows).estimate[j] == RowUpdate(e, SweepPrefix(e, x, j).estimate, j)
  {
    if rows > 0 {
      SweepPrefixFrame(e, x, rows - 1);
    }
  }

  /** Gauss-Seidel visibility: row `i` reads the values already written in
   *  this sweep for the rows before it and last sweep's values for itself
   *  and the rows after it; the value written for row `i` is what the sweep
   *  ends with, and row `i` of the system holds exactly right after that write. */
  lemma SweepReadsLatest(e: Equation, x: seq<real>, i: nat)
    requires WellFormed(e) && |x| == Size(e) && i < Size(e)
    ensures forall j :: 0 <= j < i ==> SweepPrefix(e, x, i).estimate[j] == Sweep(e, x).estimate[j]
    ensures forall j :: i <= j < Size(e) ==> SweepPrefix(e, x, i).estimate[j] == x[j]
    ensures Sweep(e, x).estimate[i] == RowUpdate(e, SweepPrefix(e, x, i).estimate, i)
    ensures SweepPrefix(e, x, i + 1).estimate == SweepPrefix(e, x, i).estimate[i := Sweep(e, x).estimate[i]]
    ensures RowProduct(e.matrix[i], SweepPrefix(e, x, i + 1).estimate, Size(e)) == e.rhs[i]
  {
    SweepPrefixFrame(e, x, i);
    SweepPrefixFrame(e, x, Size(e));
  }

  /** The delta of a partial sweep is the largest change among the rows visited, or zero. */
  lemma {:induction false} SweepPrefixDelta(e: Equation, x: seq<real>, rows: nat)
    requires WellFormed(e) && |x| == Size(e) && rows <= Size(e)
    ensures SweepPrefix(e, x, rows).delta >= 0.0
    ensures forall j :: 0 <= j < rows ==>
      Abs(SweepPrefix(e, x, rows).estimate[j] - x[j]) <= SweepPrefix(e, x, rows).delta
    ensures SweepPrefix(e, x, rows).delta == 0.0
         || exists j :: 0 <= j < rows && SweepPrefix(e, x, rows).delta == Abs(SweepPrefix(e, x, rows).estimate[j] - x[j])
  {
    if rows > 0 {
      SweepPrefixDelta(e, x, rows - 1);
      SweepPrefixFrame(e, x, rows - 1);
      var prev := SweepPrefix(e, x, rows - 1);
      var st := SweepPrefix(e, x, rows);
      assert forall j :: 0 <= j < rows - 1 ==> st.estimate[j] == prev.estimate[j];
      if prev.delta != 0.0 && st.delta == prev.delta {
        var j :| 0 <= j < rows - 1 && prev.delta == Abs(prev.estimate[j] - x[j]);
        assert st.delta == Abs(st.estimate[j] - x[j]);
      }
    }
  }

  /** After a full sweep, delta is the largest `|new_i - old_i|` over all rows (zero if there are none). */
  lemma SweepDeltaIsMaxChange(e: Equation, x: seq<real>)
    requires WellFormed(e) && |x| == Size(e)
    ensures Sweep(e, x).delta >= 0.0
    ensures forall j :: 0 <= j < Size(e) ==> Abs(Sweep(e, x).estimate[j] - x[j]) <= Sweep(e, x).delta
    ensures Sweep(e, x).delta == 0.0
         || exists j :: 0 <= j < Size(e) && Sweep(e, x).delta == Abs(Sweep(e, x).estimate[j] - x[j])
  {
    SweepPrefixDelta(e, x, Size(e));
  }

  /** The estimate after `k` sweeps from the all-ones start. */
  function Estimates(e: Equation, k: nat): (x: seq<real>)
    requires WellFormed(e)
    ensures |x| == Size(e)
  {
    if k == 0 then Ones(Size(e)) else Sweep(e, Estimates(e, k - 1)).estimate
  }

  /** The delta measured by sweep number `k` (counting from one). */
  function DeltaAt(e: Equation, k: nat): real
    requires WellFormed(e) && k >= 1
  {
    Sweep(e, Estimates(e, k - 1)).delta
  }

  /** The number of sweeps allowed: `max_iterations`, but always at least one. */
  function Cap(e: Equation): (c: nat)
    ensures c >= 1 && c >= e.maxIterations
    ensures e.maxIterations >= 1 ==> c == e.maxIterations
    ensures e.maxIterations <= 1 ==> c == 1
  {
    if e.maxIterations < 1 then 1 else e.maxIterations
  }

  /** The termination policy applied from sweep `k` on. */
  function OutcomeFrom(e: Equation, k: nat): (r: Result<seq<real>, SolveError>)
    requires WellFormed(e) && 1 <= k <= Cap(e)
    ensures r.Success? ==> |r.value| == Size(e)
    ensures r.Failure? <==> forall j :: k <= j <= Cap(e) ==> DeltaAt(e, j) >= e.epsilon
    decreases Cap(e) - k
  {
    if DeltaAt(e, k) < e.epsilon then Success(Estimates(e, k))
    else if k < e.maxIterations then OutcomeFrom(e, k + 1)
    else Failure(Diverge)
  }

  /** The number of sweeps performed from sweep `k` on. */
  function SweepsFrom(e: Equation, k: nat): nat
    requires WellFormed(e) && 1 <= k <= Cap(e)
    decreases Cap(e) - k
  {
    if DeltaAt(e, k) < e.epsilon || k >= e.maxIterations then k else SweepsFrom(e, k + 1)
  }

  /** What `solve` returns. */
  function Outcome(e: Equation): (r: Result<seq<real>, SolveError>)
    requires WellFormed(e)
    ensures r.Success? ==> |r.value| == Size(e)
    ensures r.Failure? <==> forall j :: 1 <= j <= Cap(e) ==> DeltaAt(e, j) >= e.epsilon
  {
    OutcomeFrom(e, 1)
  }

  /** How many sweeps `solve` performs. */
  function SweepCount(e: Equation): nat
    requires WellFormed(e)
  {
    SweepsFrom(e, 1)
  }

  /** From sweep `k` on, the policy stops at the first sweep meeting the
   *  tolerance, or diverges at the cap. */
  lemma {:induction false} OutcomeFromStopsAtFirst(e: Equation, k: nat)
    requires WellFormed(e) && 1 <= k <= Cap(e)
    ensures k <= SweepsFrom(e, k) <= Cap(e)
    ensures forall k' :: k <= k' < SweepsFrom(e, k) ==> DeltaAt(e, k') >= e.epsilon
    ensures DeltaAt(e, SweepsFrom(e, k)) >= e.epsilon ==> SweepsFrom(e, k) == Cap(e)
    ensures OutcomeFrom(e, k)
         == if DeltaAt(e, SweepsFrom(e, k)) < e.epsilon then Success(Estimates(e, SweepsFrom(e, k)))
            else Failure(Diverge)
    decreases Cap(e) - k
  {
    if DeltaAt(e, k) >= e.epsilon && k < e.maxIterations {
      OutcomeFromStopsAtFirst(e, k + 1);
    }
  }

  /** `solve` succeeds exactly when some sweep within the cap meets the
   *  tolerance; it then returns the estimate after the first such sweep. */
  lemma SolveSucceedsIff(e: Equation)
    requires WellFormed(e)
    ensures Outcome(e).Success? <==> exists k :: 1 <= k <= Cap(e) && DeltaAt(e, k) < e.epsilon
    ensures Outcome(e).Success? ==>
      var k := SweepCount(e);
      1 <= k <= Cap(e) && DeltaAt(e, k) < e.epsilon && Outcome(e).value == Estimates(e, k)
      && (forall k' :: 1 <= k' < k ==> DeltaAt(e, k') >= e.epsilon)
      && |Outcome(e).value| == Size(e)
  {
    OutcomeFromStopsAtFirst(e, 1);
  }

  /** `Diverge` comes only after exactly `Cap(e)` sweeps, none of which met the tolerance. */
  lemma DivergeOnlyAtCap(e: Equation)
    requires WellFormed(e)
    ensures Outcome(e) == Failure(Diverge) <==> forall k :: 1 <= k <= Cap(e) ==> DeltaAt(e, k) >= e.epsilon
    ensures Outcome(e) == Failure(Diverge) ==> SweepCount(e) == Cap(e)
  {
    OutcomeFromStopsAtFirst(e, 1);
  }

  /** Deltas are never negative and the test is strict, so a tolerance of zero
   *  or less always diverges, after the full number of sweeps. */
  lemma NonPositiveEpsilonDiverges(e: Equation)
    requires WellFormed(e) && e.epsilon <= 0.0
    ensures Outcome(e) == Failure(Diverge)
    ensures SweepCount(e) == Cap(e)
  {
    forall k | 1 <= k <= Cap(e)
      ensures DeltaAt(e, k) >= e.epsilon
    {
      SweepDeltaIsMaxChange(e, Estimates(e, k - 1));
    }
    DivergeOnlyAtCap(e);
  }

  /** The sweeps do not depend on the tolerance. */
  lemma {:induction false} EstimatesIgnoreEpsilon(e: Equation, eps: real, k: nat)
    requires WellFormed(e)
    ensures Estimates(e.(epsilon := eps), k) == Estimates(e, k)
  {
    if k > 0 {
      EstimatesIgnoreEpsilon(e, eps, k - 1);
      SweepIgnoresEpsilon(e, eps, Estimates(e, k - 1), Size(e));
    }
  }

  lemma {:induction false} SweepIgnoresEpsilon(e: Equation, eps: real, x: seq<real>, rows: nat)
    requires WellFormed(e) && |x| == Size(e) && rows <= Size(e)
    ensures SweepPrefix(e.(epsilon := eps), x, rows) == SweepPrefix(e, x, rows)
  {
    if rows > 0 {
      SweepIgnoresEpsilon(e, eps, x, rows - 1);
    }
  }

  /** A tighter tolerance never makes `solve` stop earlier. */
  lemma TighterEpsilonNeverFewerSweeps(e: Equation, eps: real)
    requires WellFormed(e) && eps <= e.epsilon
    ensures SweepCount(e) <= SweepCount(e.(epsilon := eps))
  {
    var e' := e.(epsilon := eps);
    OutcomeFromStopsAtFirst(e, 1);
    OutcomeFromStopsAtFirst(e', 1);
    var k' := SweepCount(e');
    EstimatesIgnoreEpsilon(e, eps, k' - 1);
    SweepIgnoresEpsilon(e, eps, Estimates(e, k' - 1), Size(e));
    assert DeltaAt(e', k') == DeltaAt(e, k');
  }

  /** One unknown: the first sweep lands on `rhs[0] / matrix[0][0]`, and
   *  `solve` returns it when it is within the tolerance of the start value one. */
  lemma SingleUnknown(e: Equation)
    requires WellFormed(e) && Size(e) == 1
    ensures Estimates(e, 1) == [e.rhs[0] / e.matrix[0][0]]
    ensures Abs(e.rhs[0] / e.matrix[0][0] - 1.0) < e.epsilon ==>
      Outcome(e) == Success([e.rhs[0] / e.matrix[0][0]]) && SweepCount(e) == 1
  {
    var x := Ones(1);
    var v := e.rhs[0] / e.matrix[0][0];
    assert OffDiagonalSum(e.matrix[0], x, 0, 1) == 0.0;
    assert Estimates(e, 0) == x;
    assert RowUpdate(e, x, 0) == v;
    assert x[0 := v] == [v];
    assert SweepPrefix(e, x, 1) == SweepState([v], Abs(v - 1.0));
    if Abs(v - 1.0) < e.epsilon {
      assert DeltaAt(e, 1) < e.epsilon;
    }
  }

  /** The system `4x + y = 1, 2x + 3y = 2` from all ones: the first sweep
   *  gives `x = (1 - 1) / 4 = 0`, then, reading that new `x`,
   *  `y = (2 - 2 * 0) / 3 = 2/3`; the largest change is `|0 - 1| = 1`. */
  lemma FirstSweepOfTwoByTwo()
    ensures var e := Equation([[4.0, 1.0], [2.0, 3.0]], [1.0, 2.0], 50, 0.0001);
      WellFormed(e) && Estimates(e, 1) == [0.0, 2.0 / 3.0] && DeltaAt(e, 1) == 1.0
  {
    var e := Equation([[4.0, 1.0], [2.0, 3.0]], [1.0, 2.0], 50, 0.0001);
    var x := Ones(2);
    assert x == [1.0, 1.0];
    assert Estimates(e, 0) == x;
    assert OffDiagonalSum(e.matrix[0], x, 0, 2) == 1.0;
    assert RowUpdate(e, x, 0) == 0.0;
    var y := x[0 := 0.0];
    assert SweepPrefix(e, x, 1) == SweepState(y, 1.0);
    assert y[0] == 0.0 && OffDiagonalSum(e.matrix[1], y, 1, 1) == 0.0;
    assert OffDiagonalSum(e.matrix[1], y, 1, 2) == 0.0;
    assert RowUpdate(e, y, 1) == 2.0 / 3.0;
    assert y[1 := 2.0 / 3.0] == [0.0, 2.0 / 3.0];
    assert SweepPrefix(e, x, 2) == SweepState([0.0, 2.0 / 3.0], 1.0);
  }

  /** One row of a sweep, as the loop in `Solve` performs it: the sum `s`
   *  over the other columns, the new value `x` and the updated delta give
   *  the next partial-sweep state. */
  lemma SweepPrefixStep(e: Equation, x0: seq<real>, i: nat, s: real, x: real, delta: real)
    requires WellFormed(e) && |x0| == Size(e) && i < Size(e)
    requires s == OffDiagonalSum(e.matrix[i], SweepPrefix(e, x0, i).estimate, i, Size(e))
    requires x == (e.rhs[i] - s) / e.matrix[i][i]
    requires var d := Abs(x - SweepPrefix(e, x0, i).estimate[i]);
      delta == if d > SweepPrefix(e, x0, i).delta then d else SweepPrefix(e, x0, i).delta
    ensures SweepPrefix(e, x0, i + 1) == SweepState(SweepPrefix(e, x0, i).estimate[i := x], delta)
  {
  }

  /** One sweep of `Equation::solve` over the estimate, in place: each row
   *  reads the entries as the earlier rows of this sweep left them. Returns
   *  the largest change. */
  method SweepInPlace(e: Equation, estimate: array<real>) returns (delta: real)
    requires WellFormed(e) && estimate.Length == Size(e)
    modifies estimate
    ensures estimate[..] == Sweep(e, old(estimate[..])).estimate
    ensures delta == Sweep(e, old(estimate[..])).delta
  {
    var n := |e.matrix|;
    ghost var before := estimate[..];
    delta := 0.0;
    for i := 0 to n
      invariant estimate[..] == SweepPrefix(e, before, i).estimate
      invariant delta == SweepPrefix(e, before, i).delta
    {
      ghost var current := estimate[..];
      var s := 0.0;
      for j := 0 to n
        invariant s == OffDiagonalSum(e.matrix[i], current, i, j)
      {
        if j == i {
          continue;
        }
        assert estimate[j] == current[j];
        s := s + e.matrix[i][j] * estimate[j];
      }
      var x := (e.rhs[i] - s) / e.matrix[i][i];
      var d := Abs(x - estimate[i]);
      if d > delta {
        delta := d;
      }
      estimate[i] := x;
      SweepPrefixStep(e, before, i, s, x, delta);
    }
  }

  /** `Equation::solve`: start from all ones, sweep until a sweep changes no
   *  entry by `epsilon` or more, or until the cap. `sweeps` counts the
   *  sweeps performed. */
  method Solve(e: Equation) returns (r: Result<seq<real>, SolveError>, ghost sweeps: nat)
    requires WellFormed(e)
    ensures r == Outcome(e)
    ensures sweeps == SweepCount(e) && 1 <= sweeps <= Cap(e)
    ensures r.Success? ==> |r.value| == Size(e) && r.value == Estimates(e, sweeps)
  {
    var n := |e.matrix|;
    var k: nat := 1;
    var estimate := new real[n](_ => 1.0);
    OutcomeFromStopsAtFirst(e, 1);
    while true
      invariant 1 <= k <= Cap(e)
      invariant estimate[..] == Estimates(e, k - 1)
      invariant OutcomeFrom(e, k) == Outcome(e)
      invariant SweepsFrom(e, k) == SweepCount(e)
      decreases Cap(e) - k
    {
      var delta := SweepInPlace(e, estimate);
      if delta < e.epsilon {
        r, sweeps := Success(estimate[..]), k;
        return;
      }
      if k < e.maxIterations {
        k := k + 1;
        continue;
      }
      r, sweeps := Failure(Diverge), k;
      return;
    }
  }
}
