/** The solver `LinearEquationSystem`: an augmented grid of exact integers
    (the coefficients of `cols - 1` unknowns and a right-hand-side column)
    that `Solve` brings to normalised reduced row-echelon form in place, and
    from which `GetSolutions` reads a parametric solution.

    Every method that changes the grid is proved equal to the function in
    `Elimination` (or `Rows`) that describes it; what the passes achieve is
    proved there about those functions and restated here. */
module LinearSystem {
  import opened IntMath
  import opened Rows
  import opened Solutions
  import opened Elimination
  import opened Matrices

  // ---------------------------------------------------------------------------
  // Construction of the augmented grid.
  // ---------------------------------------------------------------------------

  /** The callback of the constructor reads `rcol(i, 0)` for every row `i` of
      `ratio`; the bounds-checked read throws `out_of_range` when `rcol` is too
      short or has no column. */
  predicate RightColumnMissing(ratio: Grid, rcol: Grid)
  {
    ratio.rows > 0 && (rcol.rows < ratio.rows || rcol.cols == 0)
  }

  /** The grid the constructor is meant to build: row `i` is row `i` of
      `ratio` followed by `rcol(i, 0)`. */
  function AugmentedGrid(ratio: Grid, rcol: Grid): (r: Result<seq<seq<int>>>)
    requires ratio.Valid() && rcol.Valid()
    ensures r.Err? <==> RightColumnMissing(ratio, rcol)
    ensures r.Err? ==> r.error == OutOfRange
    ensures r.Ok? ==> |r.value| == ratio.rows && Rect(r.value, ratio.cols + 1)
  {
    if RightColumnMissing(ratio, rcol) then Err(OutOfRange)
    else Ok(seq(ratio.rows, i requires 0 <= i < ratio.rows =>
              seq(ratio.cols + 1, j requires 0 <= j <= ratio.cols =>
                if j < ratio.cols then ratio.data[i][j] else rcol.data[i][0])))
  }

  /** The coefficient part of an augmented grid (what `GetRatio` reads). */
  function Coefficients(g: seq<seq<int>>, n: nat): (r: seq<seq<int>>)
    requires Rect(g, n + 1)
    ensures |r| == |g| && Rect(r, n)
  {
    seq(|g|, i requires 0 <= i < |g| => g[i][..n])
  }

  /** The right-hand-side column of an augmented grid (what `GetColumn`
      reads), as a one-column grid. */
  function RightHandSide(g: seq<seq<int>>, n: nat): (r: seq<seq<int>>)
    requires Rect(g, n + 1)
    ensures |r| == |g| && Rect(r, 1)
  {
    seq(|g|, i requires 0 <= i < |g| => [g[i][n]])
  }

  /** The augmented grid splits back into the coefficient matrix and the
      first column of the right-hand side. */
  lemma AugmentedGridSplits(ratio: Grid, rcol: Grid)
    requires ratio.Valid() && rcol.Valid() && !RightColumnMissing(ratio, rcol)
    ensures Coefficients(AugmentedGrid(ratio, rcol).value, ratio.cols) == ratio.data
    ensures forall i :: 0 <= i < ratio.rows ==>
      RightHandSide(AugmentedGrid(ratio, rcol).value, ratio.cols)[i] == [rcol.data[i][0]]
  {
    var g := AugmentedGrid(ratio, rcol).value;
    forall i | 0 <= i < ratio.rows ensures g[i][..ratio.cols] == ratio.data[i] {
      assert |g[i][..ratio.cols]| == |ratio.data[i]|;
    }
  }

  /** The constructor as written: the callback runs on the copy that the
      const `ForEach` returns, and that copy is discarded, so the grid keeps
      the zeros of `Matrix(rows, cols + 1)`; the reads of `rcol` still
      happen and can still throw. */
  function ConstructedGrid(ratio: Grid, rcol: Grid): (r: Result<seq<seq<int>>>)
    requires ratio.Valid() && rcol.Valid()
    ensures r.Err? <==> RightColumnMissing(ratio, rcol)
    ensures r.Ok? ==> r.value == Zeros(ratio.rows, ratio.cols + 1).data
  {
    if RightColumnMissing(ratio, rcol) then Err(OutOfRange)
    else Ok(Zeros(ratio.rows, ratio.cols + 1).data)
  }

  /** The system `x = 2` built as written holds `0 = 0` instead of `1 = 2`:
      the coefficients and the right-hand side are lost. */
  lemma ConstructorLosesCoefficients()
    ensures var ratio, rcol := Grid([[1]], 1, 1), Grid([[2]], 1, 1);
      ConstructedGrid(ratio, rcol) == Ok([[0, 0]]) &&
      AugmentedGrid(ratio, rcol) == Ok([[1, 2]]) &&
      ConstructedGrid(ratio, rcol) != AugmentedGrid(ratio, rcol)
  {
    var ratio, rcol := Grid([[1]], 1, 1), Grid([[2]], 1, 1);
    var z := Zeros(1, 2).data;
    assert z == [[0, 0]] by {
      assert z[0][0] == 0 && z[0][1] == 0;
      assert z[0] == [0, 0];
    }
    var a := AugmentedGrid(ratio, rcol).value;
    assert a == [[1, 2]] by {
      assert a[0][0] == 1 && a[0][1] == 2;
      assert a[0] == [1, 2];
    }
  }

  // ---------------------------------------------------------------------------
  // The scan of SimplifyRow.
  // ---------------------------------------------------------------------------

  /** `is_minus` after the scan has visited `row[0 .. k-1]`: some entry so
      far is nonzero and the first such is negative. */
  predicate PrefixLeadNegative(row: seq<int>, k: nat)
    requires k <= |row|
  {
    Lead(row, k) < k && row[Lead(row, k)] < 0
  }

  /** One step of the scan: a zero entry leaves `gcd_` and `is_minus` alone;
      a nonzero entry folds into `gcd_`, and sets `is_minus` when `gcd_` is
      still 0 and the entry is negative. */
  lemma ScanStep(row: seq<int>, k: nat)
    requires k < |row|
    ensures PrefixGcd(row, k + 1) ==
      if row[k] == 0 then PrefixGcd(row, k) else AbsGcd(PrefixGcd(row, k), row[k])
    ensures PrefixLeadNegative(row, k + 1) <==>
      if row[k] != 0 && PrefixGcd(row, k) == 0 then row[k] < 0 else PrefixLeadNegative(row, k)
  {
    AbsGcdZeroRight(PrefixGcd(row, k));
    PrefixGcdZero(row, k);
    LeadZeros(row, k);
    LeadZeros(row, k + 1);
  }

  /** A vector `x` satisfies the records `GetSolutions` returns exactly when
      it solves the system, and the records are empty when some equation
      reads `0 = nonzero`. */
  lemma SolutionsDescribeSystem(g: seq<seq<int>>, n: nat)
    requires Rect(g, n + 1)
    ensures HasInconsistentRow(g, n) ==> ExtractSolutions(g, n) == [] && SolutionSet(g, n) == iset{}
    ensures !HasInconsistentRow(g, n) ==>
      SolutionSet(g, n) == iset x: seq<int> | |x| == n && AllHold(ExtractSolutions(g, n), x)
  {
    forall x: seq<int> | |x| == n
      ensures HasInconsistentRow(g, n) ==> !Solves(g, x)
      ensures !HasInconsistentRow(g, n) ==> (Solves(g, x) <==> AllHold(ExtractSolutions(g, n), x))
    {
      ExtractSolutionsCorrect(g, n, x);
    }
  }

  class LinearEquationSystem {
    /** `data_`: the augmented grid, one row per equation. */
    var data: seq<seq<int>>
    /** `rows_` and `cols_` of the underlying matrix. */
    var rows: nat
    var cols: nat

    /** The grid has `rows` rows of `cols` entries, and there is always a
        right-hand-side column. */
    predicate Valid()
      reads this
    {
      cols >= 1 && |data| == rows && Rect(data, cols)
    }

    /** The constructor, with the callback applied to the object being built:
        `ratio.rows()` rows of `ratio.columns() + 1` entries, filled in
        row-major order. It throws `out_of_range` (here: returns the error)
        when a read of `rcol(i, 0)` is out of range. */
    static method Create(ratio: Grid, rcol: Grid) returns (r: Result<LinearEquationSystem>)
      requires ratio.Valid() && rcol.Valid()
      ensures r.Err? <==> AugmentedGrid(ratio, rcol).Err?
      ensures r.Err? ==> r.error == OutOfRange
      ensures r.Ok? ==> fresh(r.value) && r.value.Valid()
      ensures r.Ok? ==> r.value.rows == ratio.rows && r.value.cols == ratio.cols + 1
      ensures r.Ok? ==> r.value.data == AugmentedGrid(ratio, rcol).value
    {
      if RightColumnMissing(ratio, rcol) {
        return Err(OutOfRange);
      }
      var les := new LinearEquationSystem.Zeroed(ratio.rows, ratio.cols + 1);
      ghost var target := AugmentedGrid(ratio, rcol).value;
      var i := 0;
      while i < ratio.rows
        invariant 0 <= i <= ratio.rows
        invariant les.Valid() && les.rows == ratio.rows && les.cols == ratio.cols + 1
        invariant forall k :: 0 <= k < i ==> les.data[k] == target[k]
      {
        var j := 0;
        while j < ratio.cols + 1
          invariant 0 <= j <= ratio.cols + 1
          invariant les.Valid() && les.rows == ratio.rows && les.cols == ratio.cols + 1
          invariant forall k :: 0 <= k < i ==> les.data[k] == target[k]
          invariant forall c :: 0 <= c < j ==> les.data[i][c] == target[i][c]
        {
          var elem := if j < ratio.cols then ratio.data[i][j] else rcol.data[i][0];
          les.data := les.data[i := les.data[i][j := elem]];
          j := j + 1;
        }
        assert les.data[i] == target[i];
        i := i + 1;
      }
      assert les.data == target;
      return Ok(les);
    }

    /** The base-class part of the constructor, `Matrix<Large>(rows, cols)`:
        a grid of zeros. */
    constructor Zeroed(rows: nat, cols: nat)
      requires cols >= 1
      ensures Valid() && this.rows == rows && this.cols == cols
      ensures data == Zeros(rows, cols).data
    {
      this.data := Zeros(rows, cols).data;
      this.rows := rows;
      this.cols := cols;
    }

    /** `SwapRows(i, j)`: exchanges rows `i` and `j` entry by entry. */
    method SwapRows(i: nat, j: nat)
      requires Valid() && i < rows && j < rows
      modifies this
      ensures Valid() && rows == old(rows) && cols == old(cols)
      ensures data == old(data)[i := old(data)[j]][j := old(data)[i]]
    {
      var col := 0;
      while col < cols
        invariant 0 <= col <= cols
        invariant Valid() && rows == old(rows) && cols == old(cols)
        invariant forall m :: 0 <= m < rows && m != i && m != j ==> data[m] == old(data)[m]
        invariant forall c :: 0 <= c < cols ==>
          data[i][c] == (if c < col then old(data)[j][c] else old(data)[i][c]) &&
          data[j][c] == (if c < col then old(data)[i][c] else old(data)[j][c])
      {
        var a := data[i][col];
        var b := data[j][col];
        data := data[i := data[i][col := b]];
        data := data[j := data[j][col := a]];
        col := col + 1;
      }
      assert data[i] == old(data)[j];
      assert data[j] == old(data)[i];
    }

    /** `SimplifyRow(row)`: a scan computes `gcd_` (the gcd of the absolute
        values of the entries) and `is_minus` (the first nonzero entry is
        negative); unless the signed divisor is 0 or 1, every nonzero entry is
        then divided by it. */
    method SimplifyRow(row: nat)
      requires Valid() && row < rows
      modifies this
      ensures Valid() && rows == old(rows) && cols == old(cols)
      ensures data == old(data)[row := Simplified(old(data)[row])]
    {
      ghost var r := data[row];
      var gcd: nat := 0;
      var isMinus := false;
      var col := 0;
      while col < cols
        invariant 0 <= col <= cols
        invariant data == old(data) && rows == old(rows) && cols == old(cols)
        invariant gcd == PrefixGcd(r, col)
        invariant isMinus <==> PrefixLeadNegative(r, col)
      {
        var elem := data[row][col];
        ScanStep(r, col);
        if elem != 0 {
          if elem < 0 && gcd == 0 {
            isMinus := true;
          }
          gcd := AbsGcd(gcd, elem);
        }
        col := col + 1;
      }
      var s: int := if isMinus then -(gcd as int) else gcd;
      assert s == SignedGcd(r);
      if s != 1 && s != 0 {
        col := 0;
        while col < cols
          invariant 0 <= col <= cols
          invariant Valid() && rows == old(rows) && cols == old(cols)
          invariant forall m :: 0 <= m < rows && m != row ==> data[m] == old(data)[m]
          invariant forall c :: 0 <= c < cols ==>
            data[row][c] == if c < col then Divided(r, s)[c] else r[c]
        {
          DividedAt(r, s, col);
          if data[row][col] != 0 {
            data := data[row := data[row][col := TruncDiv(data[row][col], s)]];
          }
          col := col + 1;
        }
        assert data[row] == Simplified(r);
      }
    }

    /** The `ForRow` update shared by both elimination passes: row `target`
        becomes `elem * p / g - data[pivot][j] * t / g`, with `p` the pivot
        entry, `t` the target's entry in column `col` (read before the loop)
        and `g = std::gcd(p, t)`. */
    method CombineRows(target: nat, pivot: nat, col: nat)
      requires Valid() && target < rows && pivot < rows && target != pivot && col < cols
      requires data[pivot][col] != 0 || data[target][col] != 0
      modifies this
      ensures Valid() && rows == old(rows) && cols == old(cols)
      ensures data == old(data)[target := CrossMultiply(old(data)[target], old(data)[pivot], col)]
    {
      var t := data[target][col];
      var g := AbsGcd(data[pivot][col], t);
      ghost var r := CrossMultiply(old(data)[target], old(data)[pivot], col);
      var j := 0;
      while j < cols
        invariant 0 <= j <= cols
        invariant Valid() && rows == old(rows) && cols == old(cols)
        invariant forall m :: 0 <= m < rows && m != target ==> data[m] == old(data)[m]
        invariant forall c :: 0 <= c < cols ==>
          data[target][c] == if c < j then r[c] else old(data)[target][c]
      {
        CombinedAt(old(data)[target], old(data)[pivot], old(data)[pivot][col], t, g, j);
        var elem := data[target][j];
        data := data[target := data[target][j := TruncDiv(elem * data[pivot][col], g) - TruncDiv(data[pivot][j] * t, g)]];
        j := j + 1;
      }
      assert data[target] == r;
    }

    /** The search of `MakeStepwise`: the first row at or below `upper` with a
        nonzero entry in `column`, or -1 when there is none. The ghost `n` is
        the number of unknowns, `cols - 1`. */
    method FindPivotRow(ghost n: nat, upper: nat, column: nat) returns (rowNum: int)
      requires Valid() && n == cols - 1 && upper <= rows && column < n
      ensures rowNum == PivotRow(data, n, column, upper)
    {
      rowNum := -1;
      var row := upper;
      while row < rows
        invariant upper <= row <= rows
        invariant PivotRow(data, n, column, upper) == PivotRow(data, n, column, row)
      {
        if data[row][column] != 0 {
          rowNum := row;
          return;
        }
        row := row + 1;
      }
    }

    /** The inner loop of `MakeStepwise`: every row below the pivot row
        `upper` is cross-multiplied with it and normalised. */
    method EliminateBelow(ghost n: nat, upper: nat, column: nat)
      requires Valid() && n == cols - 1 && upper < rows && column < n && data[upper][column] != 0
      modifies this
      ensures Valid() && rows == old(rows) && cols == old(cols)
      ensures data == EliminatedUpTo(old(data), n, upper, column, rows)
    {
      ghost var g := data;
      var row := upper + 1;
      while row < rows
        invariant upper + 1 <= row <= rows
        invariant Valid() && rows == |g| && cols == n + 1
        invariant data == EliminatedUpTo(g, n, upper, column, row)
      {
        EliminateRow(g, n, upper, row, column);
        row := row + 1;
      }
    }

    /** The body of the elimination loop of `MakeStepwise`: row `row` is
        cross-multiplied against the pivot row `upper` and then simplified,
        which takes the grid from the first `row` eliminations of `g` to the
        first `row + 1`. */
    method EliminateRow(ghost g: seq<seq<int>>, ghost n: nat, upper: nat, row: nat, column: nat)
      requires Valid() && rows == |g| && cols == n + 1 && Rect(g, n + 1)
      requires upper < row < rows && column < n && g[upper][column] != 0
      requires data == EliminatedUpTo(g, n, upper, column, row)
      modifies this
      ensures Valid() && rows == old(rows) && cols == old(cols)
      ensures data == EliminatedUpTo(g, n, upper, column, row + 1)
    {
      EliminatedUpToStep(g, data, n, upper, column, row);
      UpdateTwice(data, row, CrossMultiply(data[row], data[upper], column),
                  Simplified(CrossMultiply(data[row], data[upper], column)));
      CombineRows(row, upper, column);
      SimplifyRow(row);
    }

    /** One iteration of `MakeStepwise`'s column loop: the first row at or
        below the cursor with a nonzero entry in `column` is swapped up to the
        cursor, every row below it is eliminated, and the cursor advances;
        without such a row nothing changes. */
    method StepColumnAt(ghost n: nat, upper: nat, column: nat) returns (next: nat)
      requires Valid() && n == cols - 1 && upper <= rows && column < n
      modifies this
      ensures Valid() && rows == old(rows) && cols == old(cols)
      ensures Cursor(data, next) == StepColumn(old(data), n, upper, column)
    {
      StepColumnCases(data, n, upper, column);
      next := upper;
      var rowNum := FindPivotRow(n, upper, column);
      if rowNum != -1 {
        SwapRows(upper, rowNum);
        EliminateBelow(n, upper, column);
        next := upper + 1;
      }
    }

    /** `MakeStepwise`: forward elimination over every coefficient column,
        with the `upper_row` cursor advancing past each pivot found. */
    method MakeStepwise()
      requires Valid()
      modifies this
      ensures Valid() && rows == old(rows) && cols == old(cols)
      ensures data == Stepwise(old(data), cols - 1)
    {
      ghost var n: nat := cols - 1;
      var upper: nat := 0;
      var column: nat := 0;
      while column + 1 < cols
        invariant column <= n
        invariant Valid() && rows == old(rows) && cols == n + 1
        invariant StepwiseUpTo(old(data), n, column) == Cursor(data, upper)
      {
        StepwiseUpToNext(old(data), n, column);
        upper := StepColumnAt(n, upper, column);
        column := column + 1;
      }
    }

    /** The `non_zeros` list of `MakeBetterStepwise`: for every row in order,
        the first coefficient column with a nonzero entry, if any. */
    method CollectPivots(ghost n: nat) returns (nonZeros: seq<nat>)
      requires Valid() && n == cols - 1
      ensures nonZeros == PivotColumns(data, n)
    {
      nonZeros := [];
      var row := 0;
      while row < rows
        invariant 0 <= row <= rows
        invariant nonZeros == PivotColumnsUpTo(data, n, row)
      {
        ghost var before := nonZeros;
        var col := 0;
        while col + 1 < cols
          invariant 0 <= col <= n
          invariant nonZeros == before
          invariant forall c :: 0 <= c < col ==> data[row][c] == 0
        {
          if data[row][col] != 0 {
            nonZeros := nonZeros + [col];
            break;
          }
          col := col + 1;
        }
        LeadUnique(data[row], n, col);
        row := row + 1;
      }
    }

    /** The inner loop of `MakeBetterStepwise` for pivot index `row`: each row
        above it that has a nonzero entry in the pivot column `nonZeros[row]`
        is cross-multiplied with row `row` and normalised. */
    method EliminateAbove(ghost n: nat, nonZeros: seq<nat>, row: nat)
      requires Valid() && n == cols - 1 && |nonZeros| <= rows && row < |nonZeros|
      requires forall m :: 0 <= m < |nonZeros| ==> nonZeros[m] < n
      modifies this
      ensures Valid() && rows == old(rows) && cols == old(cols)
      ensures data == BackInner(old(data), n, nonZeros, row, row)
    {
      var other := 0;
      while other < row
        invariant other <= row
        invariant Valid() && rows == old(rows) && cols == old(cols)
        invariant data == BackInner(old(data), n, nonZeros, row, other)
      {
        var leading := data[other][nonZeros[row]];
        if leading != 0 {
          CombineRows(other, row, nonZeros[row]);
          SimplifyRow(other);
        }
        other := other + 1;
      }
    }

    /** `MakeBetterStepwise`: for every recorded pivot from the last down to
        the second, each row above it that has a nonzero entry in the pivot
        column is cross-multiplied with the pivot row and normalised. */
    method MakeBetterStepwise()
      requires Valid()
      modifies this
      ensures Valid() && rows == old(rows) && cols == old(cols)
      ensures data == BetterStepwise(old(data), cols - 1)
    {
      ghost var n: nat := cols - 1;
      var nonZeros := CollectPivots(n);
      if |nonZeros| == 0 {
        return;
      }
      var row: nat := |nonZeros| - 1;
      while row > 0
        invariant row < |nonZeros|
        invariant Valid() && rows == old(rows) && cols == n + 1
        invariant data == BackUpTo(old(data), n, nonZeros, row)
      {
        EliminateAbove(n, nonZeros, row);
        row := row - 1;
      }
    }

    /** `Solve`: `SimplifyRow` on every row, then `MakeStepwise`, then
        `MakeBetterStepwise`. The grid ends in normalised reduced row-echelon
        form with the same solutions, and a grid already in that form is left
        as it is, so solving twice is solving once. */
    method Solve()
      requires Valid()
      modifies this
      ensures Valid() && rows == old(rows) && cols == old(cols)
      ensures data == Reduce(old(data), cols - 1)
    {
      SimplifyRows();
      MakeStepwise();
      MakeBetterStepwise();
    }

    /** The first loop of `Solve`: `SimplifyRow` on every row, top to bottom. */
    method SimplifyRows()
      requires Valid()
      modifies this
      ensures Valid() && rows == old(rows) && cols == old(cols)
      ensures data == SimplifiedUpTo(old(data), |old(data)|)
    {
      var row := 0;
      while row < rows
        invariant 0 <= row <= rows
        invariant Valid() && rows == old(rows) && cols == old(cols)
        invariant data == SimplifiedUpTo(old(data), row)
      {
        SimplifiedUpToKept(old(data), row, row);
        SimplifyRow(row);
        row := row + 1;
      }
    }

    /** The body of `GetSolutions`' row loop: the first coefficient column
        with a nonzero entry gives the defined variable, every later nonzero
        coefficient a negated term, and a nonzero right-hand side the constant
        term; `found` is false when the row has no nonzero coefficient. */
    static method ReadRow(r: seq<int>) returns (found: bool, s: LinearSolution)
      requires |r| >= 1
      ensures found <==> Lead(r, |r| - 1) < |r| - 1
      ensures found ==> s == RowSolution(r, |r| - 1)
    {
      ghost var n: nat := |r| - 1;
      found := false;
      s := NewSolution(0, 0);
      var col := 0;
      while col + 1 < |r|
        invariant 0 <= col <= n
        invariant !found
        invariant forall c :: 0 <= c < col ==> r[c] == 0
      {
        if r[col] == 0 {
          col := col + 1;
          continue;
        }
        found := true;
        // the record being built is `solutions.back()` in `GetSolutions`
        s := NewSolution(r[col], col + 1);
        var varCol := col + 1;
        while varCol + 1 < |r|
          invariant col + 1 <= varCol <= n
          invariant s == LinearSolution(ExpressionPart(r[col], col + 1), FreeTerms(r, col + 1, varCol))
        {
          if r[varCol] != 0 {
            s := s.(expression := s.expression + [ExpressionPart(-r[varCol], varCol + 1)]);
          }
          varCol := varCol + 1;
        }
        if r[|r| - 1] != 0 {
          s := s.(expression := s.expression + [ExpressionPart(r[|r| - 1], 0)]);
        }
        LeadUnique(r, n, col);
        return;
      }
      LeadUnique(r, n, n);
    }

    /** One iteration of `GetSolutions`' row loop: the row's record is
        appended when it has a nonzero coefficient; a row reading
        `0 = nonzero` is reported instead. */
    static method ReadRowInto(g: seq<seq<int>>, ghost n: nat, row: nat, solutions: seq<LinearSolution>)
      returns (next: seq<LinearSolution>, inconsistent: bool)
      requires Rect(g, n + 1) && row < |g| && solutions == PivotSolutionsUpTo(g, n, row)
      ensures inconsistent <==> Inconsistent(g[row], n)
      ensures !inconsistent ==> next == PivotSolutionsUpTo(g, n, row + 1)
    {
      var found, s := ReadRow(g[row]);
      inconsistent := !found && g[row][|g[row]| - 1] != 0;
      next := if found then solutions + [s] else solutions;
    }

    /** `GetSolutions`: one record per row with a nonzero coefficient, in row
        order; the empty list as soon as a row reads `0 = nonzero`. */
    method GetSolutions() returns (solutions: seq<LinearSolution>)
      requires Valid()
      ensures solutions == ExtractSolutions(data, cols - 1)
    {
      var g := data;
      ghost var n: nat := cols - 1;
      solutions := SolutionsOf(g, n);
      assert data == g && cols == n + 1;
    }

    /** The loop of `GetSolutions` over the rows of `g`. */
    static method SolutionsOf(g: seq<seq<int>>, ghost n: nat) returns (solutions: seq<LinearSolution>)
      requires Rect(g, n + 1)
      ensures solutions == ExtractSolutions(g, n)
    {
      solutions := [];
      var row := 0;
      while row < |g|
        invariant 0 <= row <= |g|
        invariant ConsistentUpTo(g, n, row)
        invariant solutions == PivotSolutionsUpTo(g, n, row)
      {
        var next, inconsistent := ReadRowInto(g, n, row, solutions);
        if inconsistent {
          InconsistentWitness(g, n, row);
          return [];
        }
        solutions := next;
        row := row + 1;
      }
      ConsistentWitness(g, n);
    }
  }
}
