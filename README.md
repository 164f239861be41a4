# Gauss-Seidel solver with exact decimals: a Dafny model

This project models the core of a small command-line program that solves a square linear system `A x = b` by Gauss-Seidel iteration over exact decimal numbers. It has two parts.

- **Solver** (`solver.dfy`, from `src/solver.rs`). `Equation::solve` starts from an estimate of all ones. Each sweep visits the rows in order. For row `i` it sums `a[i][j] * x[j]` over `j != i`, reading the estimate as it stands: rows before `i` already hold this sweep's values. It sets `x[i] := (b[i] - s) / a[i][i]` in place and tracks the largest change. After a sweep it returns the estimate if that change is below `epsilon`. Otherwise it sweeps again while the sweep counter is below `max_iterations`. Failing both, it reports `Diverge`.
  The method `Solve` holds the outer loop and calls `SweepInPlace` once per sweep; `SweepInPlace` holds the row and column loops and updates an array in place, and is proved equal to `Sweep`. `Solve` is proved equal to the pure specification `Outcome`, built from `RowUpdate`, `SweepPrefix`, `Sweep`, `Estimates` and `OutcomeFrom`. The lemmas state the properties of that specification: what each row reads, the exact row equation after each write, delta as the largest change, success exactly at the first sweep within the cap that meets the tolerance, divergence only after the full cap, and monotonicity in `epsilon`.
- **Input validation** (`input.dfy`, from `src/input.rs`). `compute_matrix_size` infers `n` from ragged rows of literals. The literal parse maps a flat row-major index to a 1-based (row, column). `check_for_zeroes_on_diagonal` is a loop with an early return. `build_configuration` runs these checks in a fixed order: shape, matrix literals, zero diagonal, right-hand side literals, then the tolerance literal. The lemmas show that an equation it returns meets every precondition of the solver.

Decimals are exact `real`s. The decimal parser `Decimal::from_str` is the function parameter `parse: string -> Result<real, string>`. A literal either parses to a value or fails with the parser's message. Reading and decoding the input (file, standard input, JSON) is the parameter `acquired` of `BuildConfiguration`, so an error there is passed through exactly as the `?` at `src/input.rs:25` passes it. The `.expect` on the tolerance literal panics; the model has a `Panicked` outcome for it.

Three facts about the code that the model keeps:
- `max_iterations` may be 0; the code then sweeps once, exactly as with 1 (`Cap`).
- `epsilon` may be zero or negative; the solver then always diverges (`NonPositiveEpsilonDiverges`).
- The diagonal check reports a 0-based row and column, while the literal errors report 1-based positions.

## Model

| member | source | states |
|---|---|---|
| Solver.Ones | src/solver.rs:21 | the starting estimate has one entry per unknown, each equal to 1 |
| Solver.OffDiagonalSumSkipsDiagonal | src/solver.rs:29-35 | the sum for row `i` skips column `i`: changing entry `i` of the estimate leaves it unchanged |
| Solver.RowUpdate | src/solver.rs:27-37 | with a non-zero diagonal, the new value `v` solves row `i` exactly: `a[i][i]*v + sum over j != i of a[i][j]*x[j] = b[i]` |
| Solver.Sweep | src/solver.rs:24-44 | one full sweep over every row keeps one entry per unknown; what it reads and writes is stated by `SweepReadsLatest`, its delta by `SweepDeltaIsMaxChange` |
| Solver.SweepPrefix | src/solver.rs:24-44 | the estimate keeps one entry per unknown through every row update of a sweep |
| Solver.SweepPrefixFrame | src/solver.rs:26-43 | rows not yet visited keep last sweep's values; a visited row keeps the value written when it was visited |
| Solver.SweepReadsLatest | src/solver.rs:26-43 | row `i` reads this sweep's values for `j < i` and last sweep's for `j >= i`; the write changes only entry `i`; row `i` of the system holds right after it |
| Solver.SweepPrefixDelta | src/solver.rs:24-41 | after any number of rows, delta is zero or the largest change among them, and never negative |
| Solver.SweepDeltaIsMaxChange | src/solver.rs:24-44 | after a sweep, delta >= 0, delta >= every `abs(new_i - old_i)`, and equals one of them unless it is zero |
| Solver.Estimates | src/solver.rs:21-44 | the estimate after any number of sweeps has one entry per unknown |
| Solver.Cap | src/solver.rs:20-55 | the number of sweeps allowed is `max_iterations` when it is at least 1, and exactly 1 when it is 0 |
| Solver.OutcomeFrom | src/solver.rs:23-56 | from sweep `k` on: a success has one entry per unknown; `Diverge` exactly when every sweep from `k` to the cap has delta >= epsilon |
| Solver.Outcome | src/solver.rs:18-57 | the result of `solve`: a success has one entry per unknown; `Diverge` exactly when no sweep within the cap has delta < epsilon |
| Solver.OutcomeFromStopsAtFirst | src/solver.rs:46-55 | from sweep `k` on, the solver stops at the first sweep meeting the tolerance, or diverges exactly at the cap |
| Solver.SolveSucceedsIff | src/solver.rs:46-48 | success exactly when some sweep within the cap has delta < epsilon; the result is the estimate after the first such sweep and has one entry per unknown |
| Solver.DivergeOnlyAtCap | src/solver.rs:50-55 | `Diverge` exactly when no sweep within the cap met the tolerance, and then exactly `Cap` sweeps were performed |
| Solver.NonPositiveEpsilonDiverges | src/solver.rs:46 | since delta >= 0 and the test is strict, `epsilon <= 0` always ends in `Diverge` after the full cap |
| Solver.EstimatesIgnoreEpsilon | src/solver.rs:23-44 | the sequence of estimates does not depend on `epsilon` |
| Solver.TighterEpsilonNeverFewerSweeps | src/solver.rs:23-48 | lowering `epsilon` never lowers the number of sweeps performed |
| Solver.SingleUnknown | src/solver.rs:29-48 | with one unknown the first sweep gives `b[0]/a[0][0]`, returned after one sweep when within epsilon of the start value 1 |
| Solver.FirstSweepOfTwoByTwo | src/solver.rs:21-44 | for `4x+y=1, 2x+3y=2`, the first sweep gives `[0, 2/3]` using the fresh `x` for `y`, with delta 1 |
| Solver.SweepInPlace | src/solver.rs:24-44 | one pass of the nested loops over the array leaves exactly the estimate `Sweep` computes from the old one, and returns its delta |
| Solver.Solve | src/solver.rs:18-57 | the outer loop returns exactly `Outcome`: the estimate after the first sweep with delta < epsilon, or `Diverge` after `Cap` sweeps; the number of sweeps is `SweepCount`, between 1 and the cap; a success has one entry per unknown |
| Input.MaxRowLength | src/input.rs:89-93 | no maximum exactly when there are no rows; otherwise the largest row length, attained by some row |
| Input.FirstRowNotOfLength | src/input.rs:95-99 | the lowest-index row whose length differs, or none if all agree |
| Input.ComputeMatrixSize | src/input.rs:85-126 | `EmptyMatrix` iff no rows; `Ok(n)` iff n >= 1 rows, each of length n, and n rhs entries; `WrongRowSize` gives the first differing row, 1-based, with `expected` = maximum; `WrongRowsCount` only with equal rows; `WrongExpressionRightHandSide` only with a square matrix |
| Input.SingleEmptyRowIsWrongRowsCount | src/input.rs:89-116 | `[[]]` yields `WrongRowsCount{actual: 1, expected: 0}`, not `EmptyMatrix` |
| Input.Flatten | src/input.rs:28-31 | every literal of the matrix appears in the flattened sequence; its length and the position of each literal are stated by `FlattenLength` and `FlattenAt` |
| Input.PositionOf | src/input.rs:35-36 | the 1-based (row, column) reported for a flat index has its column in `[1, n]` and its row at least 1, and `(row - 1) * n + (column - 1)` gives the index back |
| Input.PositionOfIsBijection | src/input.rs:33-38 | `index -> (index / n + 1, index % n + 1)` is a bijection from `[0, n*n)` onto `[1..n] x [1..n]` |
| Input.FlattenAt | src/input.rs:28-32 | in the flattened matrix, literal (r, c) sits at index `r * n + c` |
| Input.RowsOf | src/input.rs:43 | the parsed values are laid out as `n` rows of `n`; `RowsOfAt` puts value `r * n + c` at (r, c), as `from_row_iterator` does |
| Input.ParseAll | src/input.rs:47-55 | the literals are parsed in order and collection stops at the first failure: success gives every value in place; failure names the first failing index and its message |
| Input.ParsedMatrix | src/input.rs:28-43 | parsing the matrix succeeds iff every literal parses, each value landing at its (row, column); a failure is at the first bad literal in row-major order |
| Input.ParsedMatrixFailsAt | src/input.rs:28-42 | when literal (r, c) is the first in row-major order that does not parse, parsing the flattened matrix fails at index `r * n + c` with that literal's message |
| Input.FirstZeroOnDiagonal | src/input.rs:71-80 | the lowest diagonal index holding zero, or none |
| Input.DiagonalCheck | src/input.rs:69-83 | passes iff every `m[i][i] != 0` for `i < n`; otherwise fails with the message for a zero diagonal at row = column = the smallest such `i`, 0-based |
| Input.CheckForZeroesOnDiagonal | src/input.rs:69-83 | passes iff every `m[i][i] != 0` for `i < n`; otherwise reports the smallest such `i` as row = column = `i`, 0-based |
| Input.BuildConfiguration | src/input.rs:23-65 | an acquisition error is returned unchanged; it panics only when the tolerance literal fails to parse, with the `expect` text; the check order is stated by the `Build*` lemmas below |
| Input.BuildPropagatesAcquisitionError | src/input.rs:25 | an error from reading or decoding the input is returned unchanged |
| Input.BuildReportsSizeErrorFirst | src/input.rs:26 | a shape error is reported before any literal is parsed |
| Input.BuildReportsFirstBadMatrixLiteral | src/input.rs:28-42 | with a good shape, the first unparsable matrix literal in row-major order is reported at its 1-based (row, column), whatever else is wrong |
| Input.BuildReportsFirstZeroOnDiagonal | src/input.rs:43-45 | with all matrix literals parsed, the first zero on the diagonal is reported, 0-based, before the rhs literals are looked at |
| Input.BuildReportsFirstBadRhsLiteral | src/input.rs:47-55 | with the matrix accepted, the first unparsable rhs literal is reported at position `k + 1` |
| Input.BuildOutcomeIff | src/input.rs:23-65 | an equation is returned iff every check passes and the tolerance parses; the panic happens iff every check passes and the tolerance does not |
| Input.BuildYieldsSolvableEquation | src/input.rs:23-65 | a returned equation is square, of size >= 1, with a non-zero diagonal, holds the parsed literals in place, and keeps `max_iterations` and the parsed tolerance |
| Input.ZeroDiagonalRejected | src/input.rs:43-45 | `[[0, 1], [1, 0]]` is rejected at row 0, column 0 |

## Left out

- Reading the input (`try_non_interactive`, `determine_input_method`, `read_from_stdin`, src/input.rs:257-292): file, argument, stdin and terminal I/O. Its result is the parameter `acquired`.
- JSON decoding of the input document (src/input.rs:264, 281-287): it belongs to the serde library. The decoded document is the datatype `EquationInput`. `ParseError` and `IOError` carry the library's message as text.
- `Decimal::from_str` (src/input.rs:19-21, 63): its grammar and precision limits belong to the library. It is the parameter `parse`.
- The panic on a bad tolerance literal: Rust prints the error after the `expect` text. The model's `Panicked` outcome keeps only the fixed text.
- Decimal rounding to 28 significant digits and overflow panics in `*`, `/` and `+=` (src/solver.rs:34-38): values are exact reals, so a result that rust_decimal would round or overflow is exact here.
- `usize` width: counters and positions are unbounded naturals. The sweep counter never exceeds `max(1, max_iterations)` (`Cap`), so it cannot wrap in the code either.
- nalgebra `DMatrix`/`DVector`: the matrix is a sequence of rows, built row-major as `from_row_iterator` does. The solver's size is the row count, which equals the column count for every equation it accepts.
- Solver.Solve: requires a square matrix with a non-zero diagonal and one rhs entry per row, which `build_configuration` guarantees (`BuildYieldsSolvableEquation`). Only a zero on the diagonal makes the code divide by zero and panic. Input that is not square either panics on a nalgebra index check or is silently cut to the column count (src/solver.rs:19), and the model covers neither.
- Convergence on diagonally dominant systems: a theorem of analysis that the code does not promise.
- The `Display` impls (src/input.rs:134-243), `is_no_input_provided` and all of src/main.rs (dispatch, printing, usage text, `pad_string`): output formatting.
