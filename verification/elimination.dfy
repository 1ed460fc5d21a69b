/** The three passes of `LinearEquationSystem::Solve` as functions on the
    augmented grid: normalising every row, forward elimination
    (`MakeStepwise`) and backward elimination (`MakeBetterStepwise`).

    Each function follows its loop in `LinearEquationSystem.cpp` step by step, so that the
    methods of the solver class can be proved equal to it; the lemmas here
    state what the passes achieve: row-echelon form, reduced row-echelon
    form, normalised rows, an unchanged solution set, and a grid already in
    the target shape left as it is. */
module Elimination {
  import opened IntMath
  import opened Rows

  // ---------------------------------------------------------------------------
  // Facts about single rows.
  // ---------------------------------------------------------------------------

  /** A normalised row has a positive leading coefficient. */
  lemma NormalizedLeadPositive(row: seq<int>, n: nat)
    requires n <= |row| && Normalized(row) && Lead(row, n) < n
    ensures row[Lead(row, n)] > 0
  {
    SimplifiedSpec(row);
    FirstNonzeroIsLead(row, n);
  }

  /** A forward elimination step below a pivot in column `col`, when both rows
      are zero before `col`, leaves the target zero up to and including `col`. */
  lemma ForwardStep(target: seq<int>, pivot: seq<int>, col: nat)
    requires |target| == |pivot| && col < |pivot| && pivot[col] != 0
    requires forall j :: 0 <= j < col ==> target[j] == 0 && pivot[j] == 0
    ensures |Simplified(CrossMultiply(target, pivot, col))| == |target|
    ensures forall j :: 0 <= j <= col ==> Simplified(CrossMultiply(target, pivot, col))[j] == 0
  {
    CrossMultiplyZeroes(target, pivot, col);
    SimplifiedZeroPattern(CrossMultiply(target, pivot, col));
  }

  /** Eliminating below a positive pivot a row that is already zero in the
      pivot column and already normalised changes nothing. */
  lemma IdleStep(target: seq<int>, pivot: seq<int>, col: nat)
    requires |target| == |pivot| && col < |pivot| && pivot[col] > 0 && target[col] == 0
    requires Normalized(target)
    ensures Simplified(CrossMultiply(target, pivot, col)) == target
  {
    CrossMultiplyIdle(target, pivot, col);
  }

  /** A backward elimination step: combining a row whose leading column is
      before the pivot's leads to a row with a zero in the pivot column, the
      same leading column, and a zero wherever both rows had one. */
  lemma BackStep(target: seq<int>, pivot: seq<int>, col: nat, n: nat)
    requires |target| == n + 1 && |pivot| == n + 1 && col < n
    requires Lead(pivot, n) == col && Lead(target, n) < col
    ensures |Simplified(CrossMultiply(target, pivot, col))| == n + 1
    ensures Simplified(CrossMultiply(target, pivot, col))[col] == 0
    ensures Lead(Simplified(CrossMultiply(target, pivot, col)), n) == Lead(target, n)
    ensures forall j :: 0 <= j <= n && pivot[j] == 0 && target[j] == 0 ==>
      Simplified(CrossMultiply(target, pivot, col))[j] == 0
  {
    var c := CrossMultiply(target, pivot, col);
    CrossMultiplyZeroes(target, pivot, col);
    SimplifiedZeroPattern(c);
    LeadZeros(target, n);
    LeadZeros(pivot, n);
    LeadSamePattern(target, c, n);
    LeadSamePattern(c, Simplified(c), n);
  }

  // ---------------------------------------------------------------------------
  // The first pass of Solve: SimplifyRow on every row.
  // ---------------------------------------------------------------------------

  /** The grid after `SimplifyRow` has run on rows `0 .. k-1`. */
  function SimplifiedUpTo(g: seq<seq<int>>, k: nat): (h: seq<seq<int>>)
    requires k <= |g|
    ensures |h| == |g|
    ensures forall i :: 0 <= i < |g| ==> |h[i]| == |g[i]|
    decreases k
  {
    if k == 0 then g else SimplifiedUpTo(g, k - 1)[k - 1 := Simplified(g[k - 1])]
  }

  /** Rows from `k` on are untouched by the first `k` iterations. */
  lemma {:induction false} SimplifiedUpToKept(g: seq<seq<int>>, k: nat, i: nat)
    requires k <= i < |g|
    ensures SimplifiedUpTo(g, k)[i] == g[i]
    decreases k
  {
    if k > 0 {
      SimplifiedUpToKept(g, k - 1, i);
    }
  }

  /** Rows before `k` have been normalised by the first `k` iterations. */
  lemma {:induction false} SimplifiedUpToDone(g: seq<seq<int>>, k: nat, i: nat)
    requires i < k <= |g|
    ensures SimplifiedUpTo(g, k)[i] == Simplified(g[i])
    decreases k
  {
    var prev := SimplifiedUpTo(g, k - 1);
    assert SimplifiedUpTo(g, k) == prev[k - 1 := Simplified(g[k - 1])];
    if i < k - 1 {
      SimplifiedUpToDone(g, k - 1, i);
    }
  }

  /** Normalising row `k - 1` after the rows before it keeps the solutions. */
  lemma SimplifiedUpToStep(g: seq<seq<int>>, n: nat, k: nat)
    requires Rect(g, n + 1) && 0 < k <= |g|
    ensures SameSolutions(SimplifiedUpTo(g, k - 1), SimplifiedUpTo(g, k), n)
  {
    var prev := SimplifiedUpTo(g, k - 1);
    assert SimplifiedUpTo(g, k) == prev[k - 1 := Simplified(g[k - 1])];
    SimplifiedUpToKept(g, k - 1, k - 1);
    SimplifyKeepsSolutions(prev, k - 1, n);
  }

  /** Normalising the first `k` rows keeps the solutions. */
  lemma {:induction false} SimplifiedUpToSolutions(g: seq<seq<int>>, n: nat, k: nat)
    requires Rect(g, n + 1) && k <= |g|
    ensures SameSolutions(g, SimplifiedUpTo(g, k), n)
    decreases k
  {
    if k > 0 {
      SimplifiedUpToSolutions(g, n, k - 1);
      SimplifiedUpToStep(g, n, k);
      SameSolutionsTransitive(g, SimplifiedUpTo(g, k - 1), SimplifiedUpTo(g, k), n);
    }
  }

  /** After the first `k` rows, those rows are normalised; a grid whose rows
      are already normalised is unchanged. */
  lemma SimplifiedUpToNormalized(g: seq<seq<int>>, k: nat)
    requires k <= |g|
    ensures forall i :: 0 <= i < k ==> Normalized(SimplifiedUpTo(g, k)[i])
    ensures AllNormalized(g) ==> SimplifiedUpTo(g, k) == g
  {
    forall i | 0 <= i < k ensures Normalized(SimplifiedUpTo(g, k)[i]) {
      SimplifiedUpToDone(g, k, i);
      SimplifyIdempotent(g[i]);
    }
    if AllNormalized(g) {
      forall i | 0 <= i < |g| ensures SimplifiedUpTo(g, k)[i] == g[i] {
        if i < k {
          SimplifiedUpToDone(g, k, i);
          assert Normalized(g[i]);
        } else {
          SimplifiedUpToKept(g, k, i);
        }
      }
    }
  }

  // ---------------------------------------------------------------------------
  // The second pass: MakeStepwise.
  // ---------------------------------------------------------------------------

  /** The search of `MakeStepwise`: the first row at or after `from` with a
      nonzero entry in `column`, or -1 when there is none. */
  function PivotRow(g: seq<seq<int>>, n: nat, column: nat, from: nat): (r: int)
    requires Rect(g, n + 1) && column < n && from <= |g|
    ensures -1 <= r < |g|
    ensures r == -1 <==> forall k :: from <= k < |g| ==> g[k][column] == 0
    ensures r != -1 ==> from <= r && g[r][column] != 0 && forall k :: from <= k < r ==> g[k][column] == 0
    decreases |g| - from
  {
    if from == |g| then -1
    else if g[from][column] != 0 then from
    else PivotRow(g, n, column, from + 1)
  }

  /** The elimination loop below the pivot row `upper`, after rows
      `upper+1 .. k-1` have been cross-multiplied with it and normalised. */
  function EliminatedUpTo(g: seq<seq<int>>, n: nat, upper: nat, column: nat, k: nat): (h: seq<seq<int>>)
    requires Rect(g, n + 1) && upper < |g| && column < n && g[upper][column] != 0 && k <= |g|
    ensures |h| == |g| && Rect(h, n + 1)
    decreases k
  {
    if k <= upper + 1 then g
    else EliminatedUpTo(g, n, upper, column, k - 1)[k - 1 := Simplified(CrossMultiply(g[k - 1], g[upper], column))]
  }

  /** The pivot row, the rows above it and the rows from `k` on are not
      touched by the first `k` rows' elimination. */
  lemma {:induction false} EliminatedUpToKept(g: seq<seq<int>>, n: nat, upper: nat, column: nat, k: nat, r: nat)
    requires Rect(g, n + 1) && upper < |g| && column < n && g[upper][column] != 0 && k <= |g| && r < |g|
    requires r <= upper || k <= r
    ensures EliminatedUpTo(g, n, upper, column, k)[r] == g[r]
    decreases k
  {
    if k > upper + 1 {
      EliminatedUpToKept(g, n, upper, column, k - 1, r);
    }
  }

  /** A row strictly between the pivot row and `k` has been cross-multiplied
      with the pivot row and normalised. */
  lemma {:induction false} EliminatedUpToDone(g: seq<seq<int>>, n: nat, upper: nat, column: nat, k: nat, r: nat)
    requires Rect(g, n + 1) && upper < |g| && column < n && g[upper][column] != 0 && k <= |g|
    requires upper < r < k
    ensures EliminatedUpTo(g, n, upper, column, k)[r] == Simplified(CrossMultiply(g[r], g[upper], column))
    decreases k
  {
    if r < k - 1 {
      EliminatedUpToDone(g, n, upper, column, k - 1, r);
    }
  }

  /** One more row of the elimination, written in terms of the grid so far. */
  lemma EliminatedUpToStep(g: seq<seq<int>>, h: seq<seq<int>>, n: nat, upper: nat, column: nat, k: nat)
    requires Rect(g, n + 1) && upper < |g| && column < n && g[upper][column] != 0 && upper < k < |g|
    requires h == EliminatedUpTo(g, n, upper, column, k)
    ensures h[upper][column] != 0
    ensures EliminatedUpTo(g, n, upper, column, k + 1) == h[k := Simplified(CrossMultiply(h[k], h[upper], column))]
  {
    EliminatedUpToKept(g, n, upper, column, k, k);
    EliminatedUpToKept(g, n, upper, column, k, upper);
  }

  /** Every row after the rows `upper+1 .. k-1` have been eliminated. */
  lemma EliminatedUpToRows(g: seq<seq<int>>, n: nat, upper: nat, column: nat, k: nat)
    requires Rect(g, n + 1) && upper < |g| && column < n && g[upper][column] != 0 && k <= |g|
    ensures forall r :: 0 <= r < |g| ==>
      EliminatedUpTo(g, n, upper, column, k)[r]
      == if upper < r < k then Simplified(CrossMultiply(g[r], g[upper], column)) else g[r]
  {
    forall r | 0 <= r < |g|
      ensures EliminatedUpTo(g, n, upper, column, k)[r]
        == if upper < r < k then Simplified(CrossMultiply(g[r], g[upper], column)) else g[r]
    {
      if upper < r < k {
        EliminatedUpToDone(g, n, upper, column, k, r);
      } else {
        EliminatedUpToKept(g, n, upper, column, k, r);
      }
    }
  }

  /** Eliminating below a pivot keeps the solutions. */
  lemma {:induction false} EliminatedUpToSolutions(g: seq<seq<int>>, n: nat, upper: nat, column: nat, k: nat)
    requires Rect(g, n + 1) && upper < |g| && column < n && g[upper][column] != 0 && k <= |g|
    ensures SameSolutions(g, EliminatedUpTo(g, n, upper, column, k), n)
    decreases k
  {
    var h := EliminatedUpTo(g, n, upper, column, k);
    if k <= upper + 1 {
      assert h == g;
    } else {
      var i := k - 1;
      var prev := EliminatedUpTo(g, n, upper, column, i);
      EliminatedUpToSolutions(g, n, upper, column, i);
      EliminatedUpToKept(g, n, upper, column, i, i);
      EliminatedUpToKept(g, n, upper, column, i, upper);
      EliminationStepKeepsSolutions(prev, i, upper, column, n);
      assert prev[i := Simplified(CrossMultiply(prev[i], prev[upper], column))] == h;
      SameSolutionsTransitive(g, prev, h, n);
    }
  }

  /** The grid and the `upper_row` cursor of `MakeStepwise`. */
  datatype Cursor = Cursor(grid: seq<seq<int>>, upper: nat)

  /** One iteration of `MakeStepwise`'s column loop: when some row at or
      below the cursor has a nonzero entry in `column`, the first such row is
      swapped up to the cursor, every row below is eliminated against it, and
      the cursor advances; otherwise the column is skipped. Rows above the
      cursor are never touched. */
  function StepColumn(g: seq<seq<int>>, n: nat, upper: nat, column: nat): (c: Cursor)
    requires Rect(g, n + 1) && upper <= |g| && column < n
    ensures Rect(c.grid, n + 1) && |c.grid| == |g| && c.upper <= |g|
    ensures c.upper == upper <==> PivotRow(g, n, column, upper) == -1
    ensures c.upper == upper || c.upper == upper + 1
    ensures c.upper == upper ==> c.grid == g
    ensures forall r :: 0 <= r < upper ==> c.grid[r] == g[r]
  {
    var r := PivotRow(g, n, column, upper);
    if r == -1 then Cursor(g, upper)
    else
      EliminatedUpToRows(g[upper := g[r]][r := g[upper]], n, upper, column, |g|);
      Cursor(EliminatedUpTo(g[upper := g[r]][r := g[upper]], n, upper, column, |g|), upper + 1)
  }

  /** `MakeStepwise` after its first `column` iterations. */
  function StepwiseUpTo(g: seq<seq<int>>, n: nat, column: nat): (c: Cursor)
    requires Rect(g, n + 1) && column <= n
    ensures Rect(c.grid, n + 1) && |c.grid| == |g| && c.upper <= |g| && c.upper <= column
    decreases column
  {
    if column == 0 then Cursor(g, 0)
    else
      var c := StepwiseUpTo(g, n, column - 1);
      StepColumn(c.grid, n, c.upper, column - 1)
  }

  /** The two outcomes of one iteration, as the loop of `MakeStepwise`
      takes them. */
  lemma StepColumnCases(g: seq<seq<int>>, n: nat, upper: nat, column: nat)
    requires Rect(g, n + 1) && upper <= |g| && column < n
    ensures PivotRow(g, n, column, upper) == -1 ==> StepColumn(g, n, upper, column) == Cursor(g, upper)
    ensures var r := PivotRow(g, n, column, upper);
      r != -1 ==> StepColumn(g, n, upper, column)
                  == Cursor(EliminatedUpTo(g[upper := g[r]][r := g[upper]], n, upper, column, |g|), upper + 1)
  {
  }

  /** One more iteration of `MakeStepwise`'s column loop. */
  lemma StepwiseUpToNext(g: seq<seq<int>>, n: nat, column: nat)
    requires Rect(g, n + 1) && column < n
    ensures var c := StepwiseUpTo(g, n, column);
      StepwiseUpTo(g, n, column + 1) == StepColumn(c.grid, n, c.upper, column)
  {
  }

  /** The grid `MakeStepwise` leaves: one iteration per coefficient column. */
  function Stepwise(g: seq<seq<int>>, n: nat): (h: seq<seq<int>>)
    requires Rect(g, n + 1)
    ensures Rect(h, n + 1) && |h| == |g|
  {
    StepwiseUpTo(g, n, n).grid
  }

  /** The grid before iteration `column` with cursor `upper`: the rows above
      the cursor have strictly increasing leading columns, all before
      `column`, and the rows from the cursor down are zero before `column`. */
  predicate ForwardState(g: seq<seq<int>>, n: nat, upper: nat, column: nat)
  {
    Rect(g, n + 1) && upper <= |g| && upper <= column <= n &&
    (forall i {:trigger Lead(g[i], n)} :: 0 <= i < upper ==> Lead(g[i], n) < column) &&
    (forall i, k {:trigger Lead(g[i], n), Lead(g[k], n)} :: 0 <= i < k < upper ==> Lead(g[i], n) < Lead(g[k], n)) &&
    (forall r, j :: upper <= r < |g| && 0 <= j < column ==> g[r][j] == 0)
  }


  /** Swapping the pivot row up to the cursor and eliminating below it
      advances both the cursor and the column. */
  lemma ForwardAdvance(g: seq<seq<int>>, n: nat, upper: nat, column: nat, rowNum: nat)
    requires ForwardState(g, n, upper, column) && column < n
    requires upper <= rowNum < |g| && g[rowNum][column] != 0
    ensures ForwardState(EliminatedUpTo(g[upper := g[rowNum]][rowNum := g[upper]], n, upper, column, |g|),
                         n, upper + 1, column + 1)
  {
    var s := g[upper := g[rowNum]][rowNum := g[upper]];
    var h := EliminatedUpTo(s, n, upper, column, |g|);
    EliminatedUpToRows(s, n, upper, column, |g|);
    assert s[upper] == g[rowNum] && h[upper] == g[rowNum];
    LeadUnique(h[upper], n, column);
    forall r | 0 <= r < upper ensures h[r] == g[r] {
      assert s[r] == g[r];
    }
    forall r | upper < r < |h|
      ensures forall j :: 0 <= j <= column ==> h[r][j] == 0
    {
      assert s[r] == g[r] || s[r] == g[upper];
      ForwardStep(s[r], g[rowNum], column);
    }
  }

  /** Each iteration keeps the loop state of `MakeStepwise`. */
  lemma StepColumnState(g: seq<seq<int>>, n: nat, upper: nat, column: nat)
    requires ForwardState(g, n, upper, column) && column < n
    ensures ForwardState(StepColumn(g, n, upper, column).grid, n, StepColumn(g, n, upper, column).upper, column + 1)
  {
    var r := PivotRow(g, n, column, upper);
    if r != -1 {
      ForwardAdvance(g, n, upper, column, r);
    }
  }

  /** After every column the loop state holds with the column count. */
  lemma {:induction false} StepwiseUpToState(g: seq<seq<int>>, n: nat, column: nat)
    requires Rect(g, n + 1) && column <= n
    ensures ForwardState(StepwiseUpTo(g, n, column).grid, n, StepwiseUpTo(g, n, column).upper, column)
    decreases column
  {
    if column > 0 {
      StepwiseUpToState(g, n, column - 1);
      StepwiseUpToStateNext(g, n, column);
    }
  }

  /** The loop state carries over iteration `column - 1`. */
  lemma StepwiseUpToStateNext(g: seq<seq<int>>, n: nat, column: nat)
    requires Rect(g, n + 1) && 0 < column <= n
    requires ForwardState(StepwiseUpTo(g, n, column - 1).grid, n, StepwiseUpTo(g, n, column - 1).upper, column - 1)
    ensures ForwardState(StepwiseUpTo(g, n, column).grid, n, StepwiseUpTo(g, n, column).upper, column)
  {
    var c := StepwiseUpTo(g, n, column - 1);
    var d := StepColumn(c.grid, n, c.upper, column - 1);
    StepColumnState(c.grid, n, c.upper, column - 1);
    ForwardStateOf(StepwiseUpTo(g, n, column), d, n, column);
  }

  /** The loop state is a property of the cursor's value. */
  lemma ForwardStateOf(c: Cursor, d: Cursor, n: nat, column: nat)
    requires c == d && ForwardState(d.grid, n, d.upper, column)
    ensures ForwardState(c.grid, n, c.upper, column)
  {
  }

  /** Each iteration keeps the solutions. */
  lemma StepColumnSolutions(g: seq<seq<int>>, n: nat, upper: nat, column: nat)
    requires Rect(g, n + 1) && upper <= |g| && column < n
    ensures SameSolutions(g, StepColumn(g, n, upper, column).grid, n)
  {
    var r := PivotRow(g, n, column, upper);
    if r != -1 {
      var s := g[upper := g[r]][r := g[upper]];
      SwapKeepsSolutions(g, upper, r, n);
      EliminatedUpToSolutions(s, n, upper, column, |g|);
      SameSolutionsTransitive(g, s, EliminatedUpTo(s, n, upper, column, |g|), n);
    }
  }

  /** Each iteration keeps every row normalised. */
  lemma StepColumnNormalized(g: seq<seq<int>>, n: nat, upper: nat, column: nat)
    requires Rect(g, n + 1) && upper <= |g| && column < n && AllNormalized(g)
    ensures AllNormalized(StepColumn(g, n, upper, column).grid)
  {
    var r := PivotRow(g, n, column, upper);
    if r != -1 {
      var s := g[upper := g[r]][r := g[upper]];
      var h := EliminatedUpTo(s, n, upper, column, |g|);
      EliminatedUpToRows(s, n, upper, column, |g|);
      forall i | 0 <= i < |h| ensures Normalized(h[i]) {
        if i > upper {
          SimplifyIdempotent(CrossMultiply(s[i], s[upper], column));
        } else {
          assert s[i] == g[upper] || s[i] == g[r] || s[i] == g[i];
        }
      }
    }
  }

  /** On a normalised row-echelon grid whose cursor row leads at or after
      `column`, an iteration changes nothing: its pivot is the cursor row
      itself, and every row below is already zero there. */
  lemma StepColumnFixed(g: seq<seq<int>>, n: nat, upper: nat, column: nat)
    requires RowEchelon(g, n) && AllNormalized(g) && upper <= |g| && column < n
    requires upper == |g| || Lead(g[upper], n) >= column
    ensures StepColumn(g, n, upper, column).grid == g
    ensures var c := StepColumn(g, n, upper, column);
      c.upper == |g| || Lead(g[c.upper], n) >= column + 1
  {
    var r := PivotRow(g, n, column, upper);
    forall k | upper < k < |g| ensures Lead(g[upper], n) <= Lead(g[k], n) {
      var a, b := Lead(g[upper], n), Lead(g[k], n);
      assert a < b || b == n;
    }
    if r == -1 {
      if upper < |g| {
        LeadZeros(g[upper], n);
        assert g[upper][column] == 0;
      }
    } else {
      assert g[r][column] != 0;
      LeadZeros(g[r], n);
      assert r == upper;
      forall k | upper < k < |g| ensures g[k][column] == 0 {
        LeadZeros(g[k], n);
      }
      LeadZeros(g[upper], n);
      NormalizedLeadPositive(g[upper], n);
      assert g[upper := g[r]][r := g[upper]] == g;
      var h := EliminatedUpTo(g, n, upper, column, |g|);
      EliminatedUpToRows(g, n, upper, column, |g|);
      forall i | 0 <= i < |g| ensures h[i] == g[i] {
        if i > upper {
          IdleStep(g[i], g[upper], column);
        }
      }
      assert h == g;
    }
  }

  /** The first `column` iterations keep the solutions. */
  lemma {:induction false} StepwiseUpToSolutions(g: seq<seq<int>>, n: nat, column: nat)
    requires Rect(g, n + 1) && column <= n
    ensures SameSolutions(g, StepwiseUpTo(g, n, column).grid, n)
    decreases column
  {
    if column > 0 {
      var c := StepwiseUpTo(g, n, column - 1);
      StepwiseUpToSolutions(g, n, column - 1);
      StepColumnSolutions(c.grid, n, c.upper, column - 1);
      SameSolutionsTransitive(g, c.grid, StepwiseUpTo(g, n, column).grid, n);
    }
  }

  /** The first `column` iterations keep every row normalised. */
  lemma {:induction false} StepwiseUpToNormalized(g: seq<seq<int>>, n: nat, column: nat)
    requires Rect(g, n + 1) && column <= n && AllNormalized(g)
    ensures AllNormalized(StepwiseUpTo(g, n, column).grid)
    decreases column
  {
    if column > 0 {
      var c := StepwiseUpTo(g, n, column - 1);
      StepwiseUpToNormalized(g, n, column - 1);
      StepColumnNormalized(c.grid, n, c.upper, column - 1);
    }
  }

  /** On a normalised row-echelon grid the first `column` iterations change
      nothing, and the cursor row leads at or after `column`. */
  lemma {:induction false} StepwiseUpToFixed(g: seq<seq<int>>, n: nat, column: nat)
    requires RowEchelon(g, n) && AllNormalized(g) && column <= n
    ensures StepwiseUpTo(g, n, column).grid == g
    ensures var c := StepwiseUpTo(g, n, column);
      c.upper == |g| || Lead(g[c.upper], n) >= column
    decreases column
  {
    if column > 0 {
      StepwiseUpToFixed(g, n, column - 1);
      var c := StepwiseUpTo(g, n, column - 1);
      assert c.grid == g;
      assert StepwiseUpTo(g, n, column) == StepColumn(g, n, c.upper, column - 1);
      StepColumnFixed(g, n, c.upper, column - 1);
    }
  }

  /** What `MakeStepwise` achieves: row-echelon form with the same solutions;
      normalised rows stay normalised; a normalised row-echelon grid is a
      fixed point. */
  lemma StepwiseCorrect(g: seq<seq<int>>, n: nat)
    requires Rect(g, n + 1)
    ensures RowEchelon(Stepwise(g, n), n)
    ensures SameSolutions(g, Stepwise(g, n), n)
    ensures AllNormalized(g) ==> AllNormalized(Stepwise(g, n))
    ensures RowEchelon(g, n) && AllNormalized(g) ==> Stepwise(g, n) == g
  {
    StepwiseUpToState(g, n, n);
    StepwiseUpToSolutions(g, n, n);
    if AllNormalized(g) {
      StepwiseUpToNormalized(g, n, n);
    }
    if RowEchelon(g, n) && AllNormalized(g) {
      StepwiseUpToFixed(g, n, n);
    }
    var c := StepwiseUpTo(g, n, n);
    forall r | c.upper <= r < |c.grid| ensures Lead(c.grid[r], n) == n {
      LeadUnique(c.grid[r], n, n);
    }
  }

  // ---------------------------------------------------------------------------
  // The third pass: MakeBetterStepwise.
  // ---------------------------------------------------------------------------

  /** The inner loop of `MakeBetterStepwise` for pivot index `row`, after the
      rows `0 .. k-1` have been visited: a row with a nonzero entry in the
      pivot column `nz[row]` is cross-multiplied with row `row` and
      normalised, any other row is skipped. */
  function BackInner(g: seq<seq<int>>, n: nat, nz: seq<nat>, row: nat, k: nat): (h: seq<seq<int>>)
    requires Rect(g, n + 1) && |nz| <= |g| && (forall m :: 0 <= m < |nz| ==> nz[m] < n)
    requires row < |nz| && k <= row
    ensures Rect(h, n + 1) && |h| == |g|
    decreases k
  {
    if k == 0 then g
    else
      var h := BackInner(g, n, nz, row, k - 1);
      var other := k - 1;
      if h[other][nz[row]] == 0 then h
      else h[other := Simplified(CrossMultiply(h[other], h[row], nz[row]))]
  }

  /** The outer loop of `MakeBetterStepwise` as it runs: the grid once the
      inner loop has run for pivot indices `|nz| - 1` down to `row + 1`. */
  function BackUpTo(g: seq<seq<int>>, n: nat, nz: seq<nat>, row: nat): (h: seq<seq<int>>)
    requires Rect(g, n + 1) && |nz| <= |g| && (forall m :: 0 <= m < |nz| ==> nz[m] < n)
    requires row < |nz|
    ensures Rect(h, n + 1) && |h| == |g|
    decreases |nz| - row
  {
    if row == |nz| - 1 then g else BackInner(BackUpTo(g, n, nz, row + 1), n, nz, row + 1, row + 1)
  }

  /** The grid `MakeBetterStepwise` leaves: the pivot list is collected once,
      then the outer loop runs from the last pivot down to the second. */
  function BetterStepwise(g: seq<seq<int>>, n: nat): (h: seq<seq<int>>)
    requires Rect(g, n + 1)
    ensures Rect(h, n + 1) && |h| == |g|
    ensures |PivotColumns(g, n)| <= 1 ==> h == g
  {
    var nz := PivotColumns(g, n);
    if |nz| == 0 then g else BackUpTo(g, n, nz, 0)
  }

  /** `nz` lists the leading columns of the rows of the row-echelon grid `g`
      that have one, in order: what `PivotColumns` collects from such a grid. */
  predicate PivotsOf(nz: seq<nat>, g: seq<seq<int>>, n: nat)
  {
    RowEchelon(g, n) && |nz| <= |g| &&
    (forall m :: 0 <= m < |nz| ==> nz[m] == Lead(g[m], n) && nz[m] < n) &&
    (forall m {:trigger Lead(g[m], n)} :: |nz| <= m < |g| ==> Lead(g[m], n) == n)
  }

  lemma EchelonPivotsOf(g: seq<seq<int>>, n: nat)
    requires RowEchelon(g, n)
    ensures PivotsOf(PivotColumns(g, n), g, n)
  {
    EchelonPivots(g, n);
  }

  /** The shape of the grid during the backward pass over the row-echelon
      grid `g`, once the pivots after index `row` have been cleared: every
      leading column is kept, and every pivot column after `row` is zero
      outside its own row. */
  predicate BackShape(h: seq<seq<int>>, g: seq<seq<int>>, n: nat, nz: seq<nat>, row: nat)
  {
    PivotsOf(nz, g, n) && Rect(h, n + 1) && |h| == |g| &&
    (forall i {:trigger Lead(h[i], n)} :: 0 <= i < |g| ==> Lead(h[i], n) == Lead(g[i], n)) &&
    (forall k, i {:trigger h[i][nz[k]]} :: row < k < |nz| && 0 <= i < |h| && i != k ==> h[i][nz[k]] == 0)
  }

  /** One visit of the inner loop that changes row `other` keeps the shape
      and clears the pivot column in that row. */
  lemma BackInnerUpdate(h: seq<seq<int>>, g: seq<seq<int>>, n: nat, nz: seq<nat>, row: nat, other: nat)
    requires BackShape(h, g, n, nz, row) && other < row < |nz|
    requires h[other][nz[row]] != 0
    ensures BackShape(h[other := Simplified(CrossMultiply(h[other], h[row], nz[row]))], g, n, nz, row)
    ensures Simplified(CrossMultiply(h[other], h[row], nz[row]))[nz[row]] == 0
  {
    var col := nz[row];
    var h' := h[other := Simplified(CrossMultiply(h[other], h[row], col))];
    assert Lead(h[other], n) < col by {
      var a, b := Lead(g[other], n), Lead(g[row], n);
      assert a < b || b == n;
    }
    BackStep(h[other], h[row], col, n);
    forall k, i | row < k < |nz| && 0 <= i < |h'| && i != k ensures h'[i][nz[k]] == 0 {
      if i == other {
        assert h[row][nz[k]] == 0 && h[other][nz[k]] == 0;
      }
    }
    forall i | 0 <= i < |g| ensures Lead(h'[i], n) == Lead(g[i], n) {
      if i != other {
        assert h'[i] == h[i];
      }
    }
  }

  /** The inner loop for pivot index `row` keeps the shape and clears the
      pivot column in every row it has visited. */
  lemma {:induction false} BackInnerShape(h0: seq<seq<int>>, g: seq<seq<int>>, n: nat, nz: seq<nat>, row: nat, k: nat)
    requires BackShape(h0, g, n, nz, row) && row < |nz| && k <= row
    ensures BackShape(BackInner(h0, n, nz, row, k), g, n, nz, row)
    ensures forall i :: 0 <= i < k ==> BackInner(h0, n, nz, row, k)[i][nz[row]] == 0
    decreases k
  {
    if k > 0 {
      BackInnerShape(h0, g, n, nz, row, k - 1);
      var h := BackInner(h0, n, nz, row, k - 1);
      if h[k - 1][nz[row]] != 0 {
        BackInnerUpdate(h, g, n, nz, row, k - 1);
      }
    }
  }

  /** The inner loop never changes the pivot row itself. */
  lemma {:induction false} BackInnerPivotKept(h0: seq<seq<int>>, n: nat, nz: seq<nat>, row: nat, k: nat)
    requires Rect(h0, n + 1) && |nz| <= |h0| && (forall m :: 0 <= m < |nz| ==> nz[m] < n)
    requires row < |nz| && k <= row
    ensures BackInner(h0, n, nz, row, k)[row] == h0[row]
    decreases k
  {
    if k > 0 {
      BackInnerPivotKept(h0, n, nz, row, k - 1);
    }
  }

  /** One visit of the inner loop keeps the solutions while the pivot row
      has a nonzero pivot. */
  lemma BackInnerStepSolutions(h0: seq<seq<int>>, n: nat, nz: seq<nat>, row: nat, k: nat)
    requires Rect(h0, n + 1) && |nz| <= |h0| && (forall m :: 0 <= m < |nz| ==> nz[m] < n)
    requires row < |nz| && 0 < k <= row && BackInner(h0, n, nz, row, k - 1)[row][nz[row]] != 0
    ensures SameSolutions(BackInner(h0, n, nz, row, k - 1), BackInner(h0, n, nz, row, k), n)
  {
    var h := BackInner(h0, n, nz, row, k - 1);
    if h[k - 1][nz[row]] != 0 {
      EliminationStepKeepsSolutions(h, k - 1, row, nz[row], n);
    }
  }

  /** With a nonzero pivot, the inner loop keeps the solutions. */
  lemma {:induction false} BackInnerSolutions(h0: seq<seq<int>>, n: nat, nz: seq<nat>, row: nat, k: nat)
    requires Rect(h0, n + 1) && |nz| <= |h0| && (forall m :: 0 <= m < |nz| ==> nz[m] < n)
    requires row < |nz| && k <= row && h0[row][nz[row]] != 0
    ensures SameSolutions(h0, BackInner(h0, n, nz, row, k), n)
    decreases k
  {
    if k > 0 {
      BackInnerSolutions(h0, n, nz, row, k - 1);
      BackInnerPivotKept(h0, n, nz, row, k - 1);
      BackInnerStepSolutions(h0, n, nz, row, k);
      SameSolutionsTransitive(h0, BackInner(h0, n, nz, row, k - 1), BackInner(h0, n, nz, row, k), n);
    }
  }

  /** The inner loop keeps every row normalised. */
  lemma {:induction false} BackInnerNormalized(h0: seq<seq<int>>, n: nat, nz: seq<nat>, row: nat, k: nat)
    requires Rect(h0, n + 1) && |nz| <= |h0| && (forall m :: 0 <= m < |nz| ==> nz[m] < n)
    requires row < |nz| && k <= row && AllNormalized(h0)
    ensures AllNormalized(BackInner(h0, n, nz, row, k))
    decreases k
  {
    if k > 0 {
      var h := BackInner(h0, n, nz, row, k - 1);
      BackInnerNormalized(h0, n, nz, row, k - 1);
      if h[k - 1][nz[row]] != 0 {
        SimplifyIdempotent(CrossMultiply(h[k - 1], h[row], nz[row]));
        AllNormalizedUpdate(h, k - 1, Simplified(CrossMultiply(h[k - 1], h[row], nz[row])));
      }
    }
  }

  /** Once the inner loop has visited every row above `row`, the pivot column
      `nz[row]` is zero outside row `row`: the rows below lead after it. */
  lemma BackPivotCleared(h: seq<seq<int>>, g: seq<seq<int>>, n: nat, nz: seq<nat>, row: nat)
    requires BackShape(h, g, n, nz, row) && 0 < row < |nz|
    requires forall i :: 0 <= i < row ==> h[i][nz[row]] == 0
    ensures BackShape(h, g, n, nz, row - 1)
  {
    forall i | row < i < |h| ensures h[i][nz[row]] == 0 {
      var a, b := Lead(g[row], n), Lead(g[i], n);
      assert a < b || b == n;
      assert Lead(h[i], n) == b;
      LeadZeros(h[i], n);
    }
  }

  /** One full inner loop moves the shape from `row` to `row - 1`. */
  lemma BackInnerDone(h: seq<seq<int>>, g: seq<seq<int>>, n: nat, nz: seq<nat>, row: nat)
    requires BackShape(h, g, n, nz, row) && 0 < row < |nz|
    ensures BackShape(BackInner(h, n, nz, row, row), g, n, nz, row - 1)
  {
    BackInnerShape(h, g, n, nz, row, row);
    BackPivotCleared(BackInner(h, n, nz, row, row), g, n, nz, row);
  }

  /** The outer loop, down to pivot index `row`, clears every pivot column
      after index `row`. */
  lemma {:induction false} BackUpToShape(g0: seq<seq<int>>, g: seq<seq<int>>, n: nat, nz: seq<nat>, row: nat)
    requires row < |nz| && BackShape(g0, g, n, nz, |nz| - 1)
    ensures BackShape(BackUpTo(g0, n, nz, row), g, n, nz, row)
    decreases |nz| - row
  {
    if row < |nz| - 1 {
      BackUpToShape(g0, g, n, nz, row + 1);
      BackInnerDone(BackUpTo(g0, n, nz, row + 1), g, n, nz, row + 1);
    }
  }

  /** The outer loop keeps the solutions: every pivot it uses is nonzero. */
  lemma {:induction false} BackUpToSolutions(g0: seq<seq<int>>, g: seq<seq<int>>, n: nat, nz: seq<nat>, row: nat)
    requires row < |nz| && BackShape(g0, g, n, nz, |nz| - 1)
    ensures SameSolutions(g0, BackUpTo(g0, n, nz, row), n)
    decreases |nz| - row
  {
    if row < |nz| - 1 {
      var h := BackUpTo(g0, n, nz, row + 1);
      BackUpToSolutions(g0, g, n, nz, row + 1);
      BackUpToShape(g0, g, n, nz, row + 1);
      assert h[row + 1][nz[row + 1]] != 0 by {
        assert Lead(h[row + 1], n) == Lead(g[row + 1], n);
      }
      BackInnerSolutions(h, n, nz, row + 1, row + 1);
      SameSolutionsTransitive(g0, h, BackUpTo(g0, n, nz, row), n);
    }
  }

  /** The outer loop keeps every row normalised. */
  lemma {:induction false} BackUpToNormalized(g0: seq<seq<int>>, n: nat, nz: seq<nat>, row: nat)
    requires Rect(g0, n + 1) && |nz| <= |g0| && (forall m :: 0 <= m < |nz| ==> nz[m] < n)
    requires row < |nz| && AllNormalized(g0)
    ensures AllNormalized(BackUpTo(g0, n, nz, row))
    decreases |nz| - row
  {
    if row < |nz| - 1 {
      BackUpToNormalized(g0, n, nz, row + 1);
      BackInnerNormalized(BackUpTo(g0, n, nz, row + 1), n, nz, row + 1, row + 1);
    }
  }

  /** When every pivot column but the first is cleared, the grid is in
      reduced row-echelon form: the first one is zero below its row because
      the rows below lead later. */
  lemma BackShapeReduced(h: seq<seq<int>>, g: seq<seq<int>>, n: nat, nz: seq<nat>)
    requires BackShape(h, g, n, nz, 0)
    ensures Reduced(h, n)
  {
    forall i, k | 0 <= i < |h| && 0 <= k < |h| && i != k && Lead(h[k], n) < n
      ensures h[i][Lead(h[k], n)] == 0
    {
      if k == 0 {
        var a, b := Lead(g[0], n), Lead(g[i], n);
        assert a < b || b == n;
        assert Lead(h[i], n) == b;
        LeadZeros(h[i], n);
      }
    }
  }

  /** On a row-echelon grid, `MakeBetterStepwise` clears every pivot column
      but the first and keeps every leading column. */
  lemma BetterStepwiseShape(g: seq<seq<int>>, n: nat)
    requires RowEchelon(g, n)
    ensures BackShape(BetterStepwise(g, n), g, n, PivotColumns(g, n), 0)
  {
    var nz := PivotColumns(g, n);
    EchelonPivotsOf(g, n);
    if |nz| > 0 {
      assert BackShape(g, g, n, nz, |nz| - 1);
      BackUpToShape(g, g, n, nz, 0);
    }
  }

  /** What `MakeBetterStepwise` achieves on a row-echelon grid: reduced
      row-echelon form, the same leading columns, the same solutions, and
      normalised rows staying normalised. */
  lemma BetterStepwiseCorrect(g: seq<seq<int>>, n: nat)
    requires RowEchelon(g, n)
    ensures Reduced(BetterStepwise(g, n), n)
    ensures forall i :: 0 <= i < |g| ==> Lead(BetterStepwise(g, n)[i], n) == Lead(g[i], n)
    ensures SameSolutions(g, BetterStepwise(g, n), n)
    ensures AllNormalized(g) ==> AllNormalized(BetterStepwise(g, n))
  {
    var nz := PivotColumns(g, n);
    var h := BetterStepwise(g, n);
    assert Reduced(h, n) && forall i :: 0 <= i < |g| ==> Lead(h[i], n) == Lead(g[i], n) by {
      BetterStepwiseShape(g, n);
      BackShapeReduced(h, g, n, nz);
    }
    if |nz| > 0 {
      assert SameSolutions(g, h, n) by {
        EchelonPivotsOf(g, n);
        assert BackShape(g, g, n, nz, |nz| - 1);
        BackUpToSolutions(g, g, n, nz, 0);
      }
      if AllNormalized(g) {
        BackUpToNormalized(g, n, nz, 0);
      }
    }
  }

  /** The inner loop changes nothing when the pivot column is already zero
      in every row it visits. */
  lemma {:induction false} BackInnerFixed(g: seq<seq<int>>, n: nat, nz: seq<nat>, row: nat, k: nat)
    requires Rect(g, n + 1) && |nz| <= |g| && (forall m :: 0 <= m < |nz| ==> nz[m] < n)
    requires row < |nz| && k <= row
    requires forall i :: 0 <= i < k ==> g[i][nz[row]] == 0
    ensures BackInner(g, n, nz, row, k) == g
    decreases k
  {
    if k > 0 {
      BackInnerFixed(g, n, nz, row, k - 1);
    }
  }

  /** The outer loop changes nothing when every pivot column after the first
      is already zero in the rows above its own. */
  lemma {:induction false} BackUpToFixed(g: seq<seq<int>>, n: nat, nz: seq<nat>, row: nat)
    requires Rect(g, n + 1) && |nz| <= |g| && (forall m :: 0 <= m < |nz| ==> nz[m] < n)
    requires row < |nz|
    requires forall r, i :: row < r < |nz| && 0 <= i < r ==> g[i][nz[r]] == 0
    ensures BackUpTo(g, n, nz, row) == g
    decreases |nz| - row
  {
    if row < |nz| - 1 {
      BackUpToFixed(g, n, nz, row + 1);
      BackInnerFixed(g, n, nz, row + 1, row + 1);
    }
  }

  /** In reduced row-echelon form every pivot column is zero in the rows
      above its own. */
  lemma ReducedPivotsCleared(g: seq<seq<int>>, n: nat)
    requires Reduced(g, n)
    ensures var nz := PivotColumns(g, n);
      forall r, i :: 0 < r < |nz| && 0 <= i < r ==> g[i][nz[r]] == 0
  {
    var nz := PivotColumns(g, n);
    EchelonPivotsOf(g, n);
    forall r, i | 0 < r < |nz| && 0 <= i < r ensures g[i][nz[r]] == 0 {
      assert nz[r] == Lead(g[r], n) < n;
    }
  }

  lemma BetterStepwiseFixed(g: seq<seq<int>>, n: nat)
    requires Reduced(g, n)
    ensures BetterStepwise(g, n) == g
  {
    var nz := PivotColumns(g, n);
    if |nz| > 0 {
      ReducedPivotsCleared(g, n);
      BackUpToFixed(g, n, nz, 0);
    }
  }

  // ---------------------------------------------------------------------------
  // Solve: the three passes in order.
  // ---------------------------------------------------------------------------

  /** The grid `Solve` leaves. */
  function Reduce(g: seq<seq<int>>, n: nat): (h: seq<seq<int>>)
    requires Rect(g, n + 1)
    ensures Rect(h, n + 1) && |h| == |g|
  {
    BetterStepwise(Stepwise(SimplifiedUpTo(g, |g|), n), n)
  }

  /** `Solve` reaches normalised reduced row-echelon form and keeps the
      solution set. */
  lemma ReduceCorrect(g: seq<seq<int>>, n: nat)
    requires Rect(g, n + 1)
    ensures Solved(Reduce(g, n), n)
    ensures SameSolutions(g, Reduce(g, n), n)
  {
    var a := SimplifiedUpTo(g, |g|);
    SimplifiedUpToSolutions(g, n, |g|);
    SimplifiedUpToNormalized(g, |g|);
    StepwiseCorrect(a, n);
    BetterStepwiseCorrect(Stepwise(a, n), n);
    SameSolutionsTransitive(g, a, Stepwise(a, n), n);
    SameSolutionsTransitive(g, Stepwise(a, n), Reduce(g, n), n);
  }

  /** A solved grid is a fixed point of `Solve`. */
  lemma ReduceFixed(g: seq<seq<int>>, n: nat)
    requires Solved(g, n)
    ensures Reduce(g, n) == g
  {
    SimplifiedUpToNormalized(g, |g|);
    StepwiseCorrect(g, n);
    BetterStepwiseFixed(g, n);
  }

  /** Solving twice is solving once. */
  lemma ReduceIdempotent(g: seq<seq<int>>, n: nat)
    requires Rect(g, n + 1)
    ensures Reduce(Reduce(g, n), n) == Reduce(g, n)
  {
    ReduceCorrect(g, n);
    ReduceFixed(Reduce(g, n), n);
  }
}
