/** The structural validation of src/input.rs: inferring the matrix size,
 *  parsing the literals with positional errors, the zero-diagonal check and
 *  the order in which `build_configuration` runs them.
 *
 *  Reading the input (file, standard input) and decoding the JSON document
 *  happen before any of this; their result is the parameter `acquired`.
 *  The decimal parser is the parameter `parse`: a literal either becomes an
 *  exact value or fails with the parser's message. */
module Input {
  import opened Wrappers
  import Solver

  const DecimalParseErrorMessage: string := "Can't represent such precise value"
  const ZeroOnDiagonalErrorMessage: string := "Zero on diagonal detected! Expected non-zero value on diagonal!"

  /** The decoded document: literals as text, the cap, and the tolerance as text. */
  datatype EquationInput = EquationInput(
    inputMatrix: seq<seq<string>>,
    expressionRhs: seq<string>,
    maxIterations: nat,
    epsilon: string)

  datatype WrongSize = WrongSize(actual: nat, expected: nat)

  datatype MatrixSizeError =
    | WrongRowSize(size: WrongSize, position: nat)
    | WrongExpressionRightHandSide(size: WrongSize)
    | WrongRowsCount(size: WrongSize)
    | EmptyMatrix

  datatype PositionalError = PositionalError(row: nat, column: nat, message: string)

  /** The errors of `build_configuration`. The last three come from reading
   *  and decoding the input and only pass through here. */
  datatype NonInteractiveError =
    | MatrixSizeError(sizeError: MatrixSizeError)
    | MatrixInputError(inputError: PositionalError)
    | RightHandSideError(position: nat, message: string)
    | NoInputProvided
    | ParseError(message: string)
    | IOError(message: string)

  /** A Rust function either returns or panics; the panic here is the
   *  `expect` on the tolerance literal. */
  datatype BuildOutcome = Returned(result: Result<Solver.Equation, NonInteractiveError>) | Panicked(message: string)

  /** The first literal that failed to parse: its 0-based index and the parser's message. */
  datatype LiteralError = LiteralError(index: nat, message: string)

  // ---------------------------------------------------------------------
  // compute_matrix_size

  /** The longest row length, or `None` for no rows (the iterator's `max`). */
  function MaxRowLength(m: seq<seq<string>>): (r: Option<nat>)
    ensures r.None? <==> |m| == 0
    ensures r.Some? ==>
      (exists i :: 0 <= i < |m| && |m[i]| == r.value) && forall i :: 0 <= i < |m| ==> |m[i]| <= r.value
  {
    if |m| == 0 then None
    else
      var last := |m[|m| - 1]|;
      match MaxRowLength(m[..|m| - 1])
      case None => Some(last)
      case Some(v) => Some(if v < last then last else v)
  }

  /** The index of the first row from `from` on whose length is not `n`. */
  function FirstRowNotOfLength(m: seq<seq<string>>, n: nat, from: nat): (r: Option<nat>)
    requires from <= |m|
    ensures r.Some? ==>
      from <= r.value < |m| && |m[r.value]| != n && forall j :: from <= j < r.value ==> |m[j]| == n
    ensures r.None? ==> forall j :: from <= j < |m| ==> |m[j]| == n
    decreases |m| - from
  {
    if from == |m| then None
    else if |m[from]| != n then Some(from)
    else FirstRowNotOfLength(m, n, from + 1)
  }

  /** `compute_matrix_size`: the size is the longest row; then, in order, a
   *  row of another length (1-based position), a row count other than the
   *  size, and a right-hand side of another length are rejected. */
  function ComputeMatrixSize(m: seq<seq<string>>, rhs: seq<string>): (r: Result<nat, MatrixSizeError>)
    ensures r == Failure(EmptyMatrix) <==> |m| == 0
    ensures r.Success? <==> |m| >= 1 && |rhs| == |m| && forall i :: 0 <= i < |m| ==> |m[i]| == |m|
    ensures r.Success? ==> r.value == |m| && r.value >= 1
    ensures r.Failure? && r.error.WrongRowSize? ==>
      var p, size := r.error.position, r.error.size;
      1 <= p <= |m| && |m[p - 1]| == size.actual && size.actual != size.expected
      && (forall j :: 0 <= j < |m| ==> |m[j]| <= size.expected)
      && (exists j :: 0 <= j < |m| && |m[j]| == size.expected)
      && (forall j :: 0 <= j < p - 1 ==> |m[j]| == size.expected)
    ensures r.Failure? && r.error.WrongRowsCount? ==>
      r.error.size.actual == |m| != r.error.size.expected
      && forall j :: 0 <= j < |m| ==> |m[j]| == r.error.size.expected
    ensures r.Failure? && r.error.WrongExpressionRightHandSide? ==>
      r.error.size.actual == |rhs| != r.error.size.expected == |m|
      && forall j :: 0 <= j < |m| ==> |m[j]| == |m|
  {
    match MaxRowLength(m)
    case None => Failure(EmptyMatrix)
    case Some(n) =>
      match FirstRowNotOfLength(m, n, 0)
      case Some(i) => Failure(WrongRowSize(WrongSize(|m[i]|, n), i + 1))
      case None =>
        if |m| != n then Failure(WrongRowsCount(WrongSize(|m|, n)))
        else if |rhs| != n then Failure(WrongExpressionRightHandSide(WrongSize(|rhs|, n)))
        else Success(n)
  }

  /** A single empty row is a wrong row count (one row, size zero), not an empty matrix. */
  lemma SingleEmptyRowIsWrongRowsCount(rhs: seq<string>)
    ensures ComputeMatrixSize([[]], rhs) == Failure(WrongRowsCount(WrongSize(1, 0)))
  {
    assert MaxRowLength([[]]) == Some(0) by {
      var m: seq<seq<string>> := [[]];
      assert m[..0] == [];
    }
  }

  // ---------------------------------------------------------------------
  // Row-major positions

  /** The flat literals of the matrix, row after row (`iter().flatten()`). */
  function Flatten(m: seq<seq<string>>): (flat: seq<string>)
    ensures forall r, c :: 0 <= r < |m| && 0 <= c < |m[r]| ==> m[r][c] in flat
  {
    if |m| == 0 then [] else Flatten(m[..|m| - 1]) + m[|m| - 1]
  }

  /** The 1-based (row, column) reported for flat index `index` of a matrix of size `n`. */
  function PositionOf(index: nat, n: nat): (p: (nat, nat))
    requires n > 0
    ensures p.0 >= 1 && 1 <= p.1 <= n
    ensures (p.0 - 1) * n + (p.1 - 1) == index
  {
    (index / n + 1, index % n + 1)
  }

  /** The flat index of the 1-based position (row, column). */
  function FlatIndex(row: nat, column: nat, n: nat): int
  {
    (row - 1) * n + (column - 1)
  }

  /** Row-major offsets of two different rows are at least a row apart. */
  lemma {:induction false} RowsApart(a: nat, b: nat, n: nat)
    ensures a < b ==> a * n + n <= b * n
    ensures a <= b ==> a * n <= b * n
    decreases if a < b then b - a else 0
  {
    if a < b {
      RowsApart(a, b - 1, n);
      assert (b - 1) * n + n == b * n;
    }
  }

  lemma RowMajorDivMod(r: nat, c: nat, n: nat)
    requires c < n
    ensures (r * n + c) / n == r && (r * n + c) % n == c
  {
    var q, k := (r * n + c) / n, (r * n + c) % n;
    assert q * n + k == r * n + c;
    RowsApart(q, r, n);
    RowsApart(r, q, n);
  }

  lemma RowMajorBounds(r: nat, c: nat, n: nat, rows: nat)
    requires r < rows && c < n
    ensures r * n + c < rows * n
  {
    RowsApart(r, rows, n);
  }

  lemma RowMajorOrder(r: nat, c: nat, r': nat, c': nat, n: nat)
    requires c < n && c' < n && (r' < r || (r' == r && c' < c))
    ensures r' * n + c' < r * n + c
  {
    RowsApart(r', r, n);
  }

  /** The position mapping is a bijection between the flat indices below
   *  `n * n` and the 1-based positions of an `n` by `n` matrix. */
  lemma PositionOfIsBijection(n: nat, index: nat, row: nat, column: nat)
    requires n > 0
    ensures index < n * n ==>
      var (pr, pc) := PositionOf(index, n);
      1 <= pr <= n && 1 <= pc <= n && FlatIndex(pr, pc, n) == index
    ensures 1 <= row <= n && 1 <= column <= n ==>
      0 <= FlatIndex(row, column, n) < n * n && PositionOf(FlatIndex(row, column, n), n) == (row, column)
  {
    var q, k := index / n, index % n;
    assert index == q * n + k;
    RowsApart(n, q, n);
    if 1 <= row <= n && 1 <= column <= n {
      RowMajorBounds(row - 1, column - 1, n, n);
      RowMajorDivMod(row - 1, column - 1, n);
    }
  }

  lemma {:induction false} FlattenLength(m: seq<seq<string>>, n: nat)
    requires forall i :: 0 <= i < |m| ==> |m[i]| == n
    ensures |Flatten(m)| == |m| * n
  {
    if |m| > 0 {
      FlattenLength(m[..|m| - 1], n);
      RowsApart(|m| - 1, |m|, n);
      assert (|m| - 1) * n + n == |m| * n;
    }
  }

  /** Literal (r, c) sits at flat index `r * n + c`. */
  lemma {:induction false} FlattenAt(m: seq<seq<string>>, n: nat, r: nat, c: nat)
    requires forall i :: 0 <= i < |m| ==> |m[i]| == n
    requires r < |m| && c < n
    ensures r * n + c < |Flatten(m)| && Flatten(m)[r * n + c] == m[r][c]
  {
    var init := m[..|m| - 1];
    FlattenLength(m, n);
    FlattenLength(init, n);
    RowMajorBounds(r, c, n, |m|);
    var index := r * n + c;
    if r < |m| - 1 {
      FlattenAt(init, n, r, c);
      assert init[r] == m[r];
    } else {
      assert (|m| - 1) * n == r * n;
    }
  }

  // ---------------------------------------------------------------------
  // Parsing literals

  /** Parse every literal in order, stopping at the first failure
   *  (`map` then `collect` into a `Result`). */
  function ParseAll(literals: seq<string>, parse: string -> Result<real, string>): (r: Result<seq<real>, LiteralError>)
    ensures r.Success? ==>
      |r.value| == |literals| && forall i :: 0 <= i < |literals| ==> parse(literals[i]) == Success(r.value[i])
    ensures r.Failure? ==>
      r.error.index < |literals|
      && parse(literals[r.error.index]) == Failure(r.error.message)
      && forall i :: 0 <= i < r.error.index ==> parse(literals[i]).Success?
  {
    if |literals| == 0 then Success([])
    else
      match parse(literals[0])
      case Failure(message) => Failure(LiteralError(0, message))
      case Success(v) =>
        match ParseAll(literals[1..], parse)
        case Success(vs) => Success([v] + vs)
        case Failure(LiteralError(i, message)) => Failure(LiteralError(i + 1, message))
  }

  /** `DMatrix::from_row_iterator`: the `n` by `n` matrix whose rows are
   *  consecutive runs of `n` values. */
  function RowsOf(values: seq<real>, n: nat): (m: seq<seq<real>>)
    requires |values| == n * n
    ensures |m| == n && forall r :: 0 <= r < n ==> |m[r]| == n
  {
    seq(n, r requires 0 <= r < n =>
      seq(n, c requires 0 <= c < n => RowMajorBounds(r, c, n, n); values[r * n + c]))
  }

  lemma RowsOfAt(values: seq<real>, n: nat, r: nat, c: nat)
    requires |values| == n * n && r < n && c < n
    ensures r * n + c < n * n && RowsOf(values, n)[r][c] == values[r * n + c]
  {
    RowMajorBounds(r, c, n, n);
  }

  /** Every literal of the matrix parses. */
  ghost predicate MatrixLiteralsParse(m: seq<seq<string>>, parse: string -> Result<real, string>)
  {
    forall r, c :: 0 <= r < |m| && 0 <= c < |m[r]| ==> parse(m[r][c]).Success?
  }

  /** When every literal of the flattened matrix parses, entry (r, c) of the
   *  built matrix is the value of literal (r, c). */
  lemma ParsedMatrixValues(m: seq<seq<string>>, n: nat, parse: string -> Result<real, string>)
    requires n > 0 && |m| == n && forall i :: 0 <= i < n ==> |m[i]| == n
    requires ParseAll(Flatten(m), parse).Success?
    ensures |ParseAll(Flatten(m), parse).value| == n * n
    ensures forall r, c :: 0 <= r < n && 0 <= c < n ==>
      parse(m[r][c]) == Success(RowsOf(ParseAll(Flatten(m), parse).value, n)[r][c])
  {
    FlattenLength(m, n);
    var values := ParseAll(Flatten(m), parse).value;
    forall r, c | 0 <= r < n && 0 <= c < n
      ensures parse(m[r][c]) == Success(RowsOf(values, n)[r][c])
    {
      RowsOfAt(values, n, r, c);
      FlattenAt(m, n, r, c);
    }
  }

  /** A flat index below `n * n` splits into a row and a column below `n`. */
  lemma SplitIndex(index: nat, n: nat)
    requires n > 0 && index < n * n
    ensures index / n < n && index % n < n && (index / n) * n + index % n == index
  {
    RowsApart(n, index / n, n);
  }

  /** A literal whose flat index lies before `index` parses when every flat literal before `index` does. */
  lemma ParsedBefore(m: seq<seq<string>>, n: nat, parse: string -> Result<real, string>, index: nat, r: nat, c: nat)
    requires n > 0 && |m| == n && forall i :: 0 <= i < n ==> |m[i]| == n
    requires index <= |Flatten(m)| && forall i :: 0 <= i < index ==> parse(Flatten(m)[i]).Success?
    requires r < n && c < n && r * n + c < index
    ensures parse(m[r][c]).Success?
  {
    FlattenAt(m, n, r, c);
  }

  /** When parsing the flattened matrix fails, the failure is at literal
   *  (index / n, index % n), and every literal before it in row-major order parses. */
  lemma ParsedMatrixFirstFailure(m: seq<seq<string>>, n: nat, parse: string -> Result<real, string>)
    requires n > 0 && |m| == n && forall i :: 0 <= i < n ==> |m[i]| == n
    requires ParseAll(Flatten(m), parse).Failure?
    ensures var e := ParseAll(Flatten(m), parse).error;
      var r, c := e.index / n, e.index % n;
      r < n && c < n && parse(m[r][c]) == Failure(e.message)
      && forall r', c' :: 0 <= r' < n && 0 <= c' < n && (r' < r || (r' == r && c' < c)) ==>
        parse(m[r'][c']).Success?
  {
    FlattenLength(m, n);
    var e := ParseAll(Flatten(m), parse).error;
    SplitIndex(e.index, n);
    var r, c := e.index / n, e.index % n;
    FlattenAt(m, n, r, c);
    forall r', c' | 0 <= r' < n && 0 <= c' < n && (r' < r || (r' == r && c' < c))
      ensures parse(m[r'][c']).Success?
    {
      RowMajorOrder(r, c, r', c', n);
      ParsedBefore(m, n, parse, e.index, r', c');
    }
  }

  /** Parsing the flattened matrix succeeds exactly when every literal parses;
   *  a failure is at the first bad literal in row-major order. */
  lemma ParsedMatrix(m: seq<seq<string>>, n: nat, parse: string -> Result<real, string>)
    requires n > 0 && |m| == n && forall i :: 0 <= i < n ==> |m[i]| == n
    ensures ParseAll(Flatten(m), parse).Success? <==> MatrixLiteralsParse(m, parse)
    ensures ParseAll(Flatten(m), parse).Success? ==>
      |ParseAll(Flatten(m), parse).value| == n * n
      && forall r, c :: 0 <= r < n && 0 <= c < n ==>
        parse(m[r][c]) == Success(RowsOf(ParseAll(Flatten(m), parse).value, n)[r][c])
    ensures ParseAll(Flatten(m), parse).Failure? ==>
      var e := ParseAll(Flatten(m), parse).error;
      var r, c := e.index / n, e.index % n;
      r < n && c < n && parse(m[r][c]) == Failure(e.message)
      && forall r', c' :: 0 <= r' < n && 0 <= c' < n && (r' < r || (r' == r && c' < c)) ==>
        parse(m[r'][c']).Success?
  {
    if ParseAll(Flatten(m), parse).Success? {
      ParsedMatrixValues(m, n, parse);
    } else {
      ParsedMatrixFirstFailure(m, n, parse);
    }
  }

  // ---------------------------------------------------------------------
  // check_for_zeroes_on_diagonal

  /** The diagonal entries `m[i][i]` for `i < n` exist. */
  predicate DiagonalIndexable(m: seq<seq<real>>, n: nat)
  {
    n <= |m| && forall i :: 0 <= i < n ==> i < |m[i]|
  }

  /** The first zero on the diagonal from row `from` on. */
  function FirstZeroOnDiagonal(m: seq<seq<real>>, n: nat, from: nat): (r: Option<nat>)
    requires DiagonalIndexable(m, n) && from <= n
    ensures r.Some? ==>
      from <= r.value < n && m[r.value][r.value] == 0.0 && forall j :: from <= j < r.value ==> m[j][j] != 0.0
    ensures r.None? ==> forall j :: from <= j < n ==> m[j][j] != 0.0
    decreases n - from
  {
    if from == n then None
    else if m[from][from] == 0.0 then Some(from)
    else FirstZeroOnDiagonal(m, n, from + 1)
  }

  /** The verdict of the diagonal check; the position it reports is 0-based. */
  function DiagonalCheck(m: seq<seq<real>>, n: nat): (r: Outcome<PositionalError>)
    requires DiagonalIndexable(m, n)
    ensures r.Pass? <==> forall i :: 0 <= i < n ==> m[i][i] != 0.0
    ensures r.Fail? ==>
      var i := r.error.row;
      r.error == PositionalError(i, i, ZeroOnDiagonalErrorMessage)
      && i < n && m[i][i] == 0.0 && forall j :: 0 <= j < i ==> m[j][j] != 0.0
  {
    match FirstZeroOnDiagonal(m, n, 0)
    case Some(i) => Fail(PositionalError(i, i, ZeroOnDiagonalErrorMessage))
    case None => Pass
  }

  /** `check_for_zeroes_on_diagonal`: passes exactly when no diagonal entry
   *  is zero; otherwise reports the first zero at row = column = its 0-based index. */
  method CheckForZeroesOnDiagonal(m: seq<seq<real>>, n: nat) returns (r: Outcome<PositionalError>)
    requires DiagonalIndexable(m, n)
    ensures r.Pass? <==> forall i :: 0 <= i < n ==> m[i][i] != 0.0
    ensures r.Fail? ==>
      var i := r.error.row;
      r.error == PositionalError(i, i, ZeroOnDiagonalErrorMessage)
      && i < n && m[i][i] == 0.0 && forall j :: 0 <= j < i ==> m[j][j] != 0.0
    ensures r == DiagonalCheck(m, n)
  {
    for i := 0 to n
      invariant forall j :: 0 <= j < i ==> m[j][j] != 0.0
    {
      if m[i][i] == 0.0 {
        return Fail(PositionalError(i, i, ZeroOnDiagonalErrorMessage));
      }
    }
    return Pass;
  }

  // ---------------------------------------------------------------------
  // build_configuration

  /** `build_configuration`, after the input has been read and decoded:
   *  size check, matrix literals, zero diagonal, right-hand side literals,
   *  and last the tolerance literal, whose failure panics. */
  function BuildConfiguration(acquired: Result<EquationInput, NonInteractiveError>,
                              parse: string -> Result<real, string>): (r: BuildOutcome)
    ensures acquired.Failure? ==> r == Returned(Failure(acquired.error))
    ensures r.Panicked? ==>
      acquired.Success? && parse(acquired.value.epsilon).Failure? && r.message == DecimalParseErrorMessage
  {
    match acquired
    case Failure(err) => Returned(Failure(err))
    case Success(input) =>
      match ComputeMatrixSize(input.inputMatrix, input.expressionRhs)
      case Failure(sizeError) => Returned(Failure(MatrixSizeError(sizeError)))
      case Success(n) =>
        FlattenLength(input.inputMatrix, n);
        match ParseAll(Flatten(input.inputMatrix), parse)
        case Failure(LiteralError(index, message)) =>
          var (row, column) := PositionOf(index, n);
          Returned(Failure(MatrixInputError(PositionalError(row, column, message))))
        case Success(values) =>
          var matrix := RowsOf(values, n);
          match DiagonalCheck(matrix, n)
          case Fail(positional) => Returned(Failure(MatrixInputError(positional)))
          case Pass =>
            match ParseAll(input.expressionRhs, parse)
            case Failure(LiteralError(index, message)) => Returned(Failure(RightHandSideError(index + 1, message)))
            case Success(rhs) =>
              match parse(input.epsilon)
              case Failure(_) => Panicked(DecimalParseErrorMessage)
              case Success(epsilon) => Returned(Success(Solver.Equation(matrix, rhs, input.maxIterations, epsilon)))
  }

  /** Everything before the tolerance literal passes: the shape is right,
   *  every literal parses and no diagonal literal is zero. */
  ghost predicate Accepted(input: EquationInput, parse: string -> Result<real, string>)
  {
    var m, rhs := input.inputMatrix, input.expressionRhs;
    ComputeMatrixSize(m, rhs).Success?
    && MatrixLiteralsParse(m, parse)
    && (forall i :: 0 <= i < |m| ==> parse(m[i][i]) != Success(0.0))
    && forall k :: 0 <= k < |rhs| ==> parse(rhs[k]).Success?
  }

  /** An error from reading or decoding the input is passed on unchanged. */
  lemma BuildPropagatesAcquisitionError(err: NonInteractiveError, parse: string -> Result<real, string>)
    ensures BuildConfiguration(Failure(err), parse) == Returned(Failure(err))
  {
  }

  /** A shape error is reported before anything is parsed. */
  lemma BuildReportsSizeErrorFirst(input: EquationInput, parse: string -> Result<real, string>)
    requires ComputeMatrixSize(input.inputMatrix, input.expressionRhs).Failure?
    ensures BuildConfiguration(Success(input), parse)
         == Returned(Failure(MatrixSizeError(ComputeMatrixSize(input.inputMatrix, input.expressionRhs).error)))
  {
  }

  /** Every flat index names a cell (r, c) with `index == r * n + c`. */
  lemma FlatCell(m: seq<seq<string>>, n: nat, index: nat) returns (r: nat, c: nat)
    requires n > 0 && |m| == n && forall i :: 0 <= i < n ==> |m[i]| == n
    requires index < n * n
    ensures r < n && c < n && index == r * n + c
    ensures index < |Flatten(m)| && Flatten(m)[index] == m[r][c]
  {
    SplitIndex(index, n);
    r, c := index / n, index % n;
    FlattenAt(m, n, r, c);
  }

  lemma RowMajorOrderConverse(r: nat, c: nat, r': nat, c': nat, n: nat)
    requires c < n && c' < n && r' * n + c' < r * n + c
    ensures r' < r || (r' == r && c' < c)
  {
    RowsApart(r, r', n);
  }

  /** Every flat literal before that of (r, c) parses when every literal
   *  before (r, c) in row-major order does. */
  lemma FlatPrefixParses(m: seq<seq<string>>, n: nat, parse: string -> Result<real, string>, r: nat, c: nat)
    requires n > 0 && |m| == n && forall i :: 0 <= i < n ==> |m[i]| == n
    requires r < n && c < n
    requires forall r', c' ::
      0 <= r' < n && 0 <= c' < n && (r' < r || (r' == r && c' < c)) ==> parse(m[r'][c']).Success?
    ensures r * n + c < |Flatten(m)|
    ensures forall j :: 0 <= j < r * n + c ==> parse(Flatten(m)[j]).Success?
  {
    FlattenLength(m, n);
    RowMajorBounds(r, c, n, n);
    forall j | 0 <= j < r * n + c
      ensures parse(Flatten(m)[j]).Success?
    {
      var r', c' := FlatCell(m, n, j);
      RowMajorOrderConverse(r, c, r', c', n);
    }
  }

  /** Parsing the flattened matrix fails at the first bad literal in row-major order. */
  lemma ParsedMatrixFailsAt(m: seq<seq<string>>, n: nat, parse: string -> Result<real, string>, r: nat, c: nat)
    requires n > 0 && |m| == n && forall i :: 0 <= i < n ==> |m[i]| == n
    requires r < n && c < n && parse(m[r][c]).Failure?
    requires forall r', c' ::
      0 <= r' < n && 0 <= c' < n && (r' < r || (r' == r && c' < c)) ==> parse(m[r'][c']).Success?
    ensures ParseAll(Flatten(m), parse).Failure?
    ensures ParseAll(Flatten(m), parse).error == LiteralError(r * n + c, parse(m[r][c]).error)
  {
    FlatPrefixParses(m, n, parse, r, c);
    FlattenAt(m, n, r, c);
    var flat := Flatten(m);
    var index := r * n + c;
    assert parse(flat[index]).Failure?;
    var res := ParseAll(flat, parse);
    assert res.error.index == index;
  }

  /** With the right shape, the first unparsable matrix literal in row-major
   *  order is reported at its 1-based position, whatever else is wrong. */
  lemma BuildReportsFirstBadMatrixLiteral(input: EquationInput, parse: string -> Result<real, string>, r: nat, c: nat)
    requires ComputeMatrixSize(input.inputMatrix, input.expressionRhs).Success?
    requires r < |input.inputMatrix| && c < |input.inputMatrix| && parse(input.inputMatrix[r][c]).Failure?
    requires forall r', c' ::
      0 <= r' < |input.inputMatrix| && 0 <= c' < |input.inputMatrix| && (r' < r || (r' == r && c' < c))
      ==> parse(input.inputMatrix[r'][c']).Success?
    ensures BuildConfiguration(Success(input), parse)
         == Returned(Failure(MatrixInputError(PositionalError(r + 1, c + 1, parse(input.inputMatrix[r][c]).error))))
  {
    var m, n := input.inputMatrix, |input.inputMatrix|;
    ParsedMatrixFailsAt(m, n, parse, r, c);
    RowMajorDivMod(r, c, n);
    assert PositionOf(r * n + c, n) == (r + 1, c + 1);
  }

  /** With the right shape and every matrix literal parsed, the first zero on
   *  the diagonal is reported at its 0-based position, before the
   *  right-hand side is looked at. */
  lemma BuildReportsFirstZeroOnDiagonal(input: EquationInput, parse: string -> Result<real, string>, i: nat)
    requires ComputeMatrixSize(input.inputMatrix, input.expressionRhs).Success?
    requires MatrixLiteralsParse(input.inputMatrix, parse)
    requires i < |input.inputMatrix| && parse(input.inputMatrix[i][i]) == Success(0.0)
    requires forall j :: 0 <= j < i ==> parse(input.inputMatrix[j][j]) != Success(0.0)
    ensures BuildConfiguration(Success(input), parse)
         == Returned(Failure(MatrixInputError(PositionalError(i, i, ZeroOnDiagonalErrorMessage))))
  {
    var m, n := input.inputMatrix, |input.inputMatrix|;
    ParsedMatrix(m, n, parse);
    var matrix := RowsOf(ParseAll(Flatten(m), parse).value, n);
    assert forall j :: 0 <= j < n ==> parse(m[j][j]) == Success(matrix[j][j]);
    assert FirstZeroOnDiagonal(matrix, n, 0) == Some(i);
  }

  /** With the matrix accepted, the first unparsable right-hand side literal
   *  is reported at its 1-based position. */
  lemma BuildReportsFirstBadRhsLiteral(input: EquationInput, parse: string -> Result<real, string>, k: nat)
    requires ComputeMatrixSize(input.inputMatrix, input.expressionRhs).Success?
    requires MatrixLiteralsParse(input.inputMatrix, parse)
    requires forall i :: 0 <= i < |input.inputMatrix| ==> parse(input.inputMatrix[i][i]) != Success(0.0)
    requires k < |input.expressionRhs| && parse(input.expressionRhs[k]).Failure?
    requires forall j :: 0 <= j < k ==> parse(input.expressionRhs[j]).Success?
    ensures BuildConfiguration(Success(input), parse)
         == Returned(Failure(RightHandSideError(k + 1, parse(input.expressionRhs[k]).error)))
  {
    var m, n := input.inputMatrix, |input.inputMatrix|;
    ParsedMatrix(m, n, parse);
    var matrix := RowsOf(ParseAll(Flatten(m), parse).value, n);
    assert forall j :: 0 <= j < n ==> parse(m[j][j]) == Success(matrix[j][j]);
    assert FirstZeroOnDiagonal(matrix, n, 0) == None;
    var res := ParseAll(input.expressionRhs, parse);
    assert res.Failure?;
    assert res.error.index == k;
  }

  /** `build_configuration` returns an equation exactly when every check
   *  passes and the tolerance parses; it panics exactly when every check
   *  passes and the tolerance does not. */
  lemma BuildOutcomeIff(acquired: Result<EquationInput, NonInteractiveError>, parse: string -> Result<real, string>)
    ensures BuildConfiguration(acquired, parse).Returned? && BuildConfiguration(acquired, parse).result.Success?
        <==> acquired.Success? && Accepted(acquired.value, parse) && parse(acquired.value.epsilon).Success?
    ensures BuildConfiguration(acquired, parse).Panicked?
        <==> acquired.Success? && Accepted(acquired.value, parse) && parse(acquired.value.epsilon).Failure?
    ensures BuildConfiguration(acquired, parse).Panicked? ==>
        BuildConfiguration(acquired, parse).message == DecimalParseErrorMessage
  {
    if acquired.Success? {
      var input := acquired.value;
      var m, rhs := input.inputMatrix, input.expressionRhs;
      if ComputeMatrixSize(m, rhs).Success? {
        var n := |m|;
        ParsedMatrix(m, n, parse);
        var parsed := ParseAll(Flatten(m), parse);
        if parsed.Success? {
          var matrix := RowsOf(parsed.value, n);
          assert forall j :: 0 <= j < n ==> parse(m[j][j]) == Success(matrix[j][j]);
          var diagonal := DiagonalCheck(matrix, n);
          if diagonal.Fail? {
            var i := diagonal.error.row;
            assert parse(m[i][i]) == Success(0.0);
            assert !Accepted(input, parse);
          } else if ParseAll(rhs, parse).Failure? {
            assert !Accepted(input, parse);
          } else {
            assert Accepted(input, parse);
          }
        } else {
          assert !Accepted(input, parse);
        }
      } else {
        assert !Accepted(input, parse);
      }
    }
  }

  /** An equation that `build_configuration` returns satisfies everything the
   *  solver demands, and holds the values of the literals it was given. */
  lemma BuildYieldsSolvableEquation(acquired: Result<EquationInput, NonInteractiveError>,
                                    parse: string -> Result<real, string>, eq: Solver.Equation)
    requires BuildConfiguration(acquired, parse) == Returned(Success(eq))
    ensures acquired.Success?
    ensures Solver.WellFormed(eq) && Solver.Size(eq) >= 1
    ensures |acquired.value.inputMatrix| == Solver.Size(eq) == |acquired.value.expressionRhs|
    ensures forall r, c :: 0 <= r < Solver.Size(eq) && 0 <= c < Solver.Size(eq) ==>
      c < |acquired.value.inputMatrix[r]| && parse(acquired.value.inputMatrix[r][c]) == Success(eq.matrix[r][c])
    ensures forall k :: 0 <= k < Solver.Size(eq) ==> parse(acquired.value.expressionRhs[k]) == Success(eq.rhs[k])
    ensures eq.maxIterations == acquired.value.maxIterations
    ensures parse(acquired.value.epsilon) == Success(eq.epsilon)
  {
    var input := acquired.value;
    var m := input.inputMatrix;
    var n := |m|;
    ParsedMatrix(m, n, parse);
    var matrix := RowsOf(ParseAll(Flatten(m), parse).value, n);
    assert eq.matrix == matrix;
    assert FirstZeroOnDiagonal(matrix, n, 0) == None;
  }

  /** `[[0, 1], [1, 0]]` never reaches the solver: the zero at the top left
   *  is reported at row 0, column 0. */
  lemma ZeroDiagonalRejected()
    ensures var parse: string -> Result<real, string> :=
        s => if s == "0" then Success(0.0) else if s == "1" then Success(1.0) else Failure("invalid decimal");
      BuildConfiguration(Success(EquationInput([["0", "1"], ["1", "0"]], ["1", "1"], 5, "0")), parse)
      == Returned(Failure(MatrixInputError(PositionalError(0, 0, ZeroOnDiagonalErrorMessage))))
  {
    var parse: string -> Result<real, string> :=
      s => if s == "0" then Success(0.0) else if s == "1" then Success(1.0) else Failure("invalid decimal");
    var input := EquationInput([["0", "1"], ["1", "0"]], ["1", "1"], 5, "0");
    assert ComputeMatrixSize(input.inputMatrix, input.expressionRhs).Success?;
    BuildReportsFirstZeroOnDiagonal(input, parse, 0);
  }
}
