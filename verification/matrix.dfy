/** The dense matrix container `Matrix<T>` the solver is built on, with the
    element type fixed to exact integers.

    A matrix value is a `Grid`: its rows and the `rows_` and `cols_`
    counters, with the invariant that the counters describe the rows (every
    constructor ends with the rows padded to a rectangle).  The operators are
    specified by functions on grids, each written independently of the
    callback machinery the container uses; the class `Matrix` holds the
    object with its three fields and the code that updates it in place or
    loops over a fresh copy, and every method is proved equal to its
    function. */
module Matrices {
  import opened IntMath

  /** The two exceptions the container throws. */
  datatype Error = OutOfRange | LengthError

  datatype Result<T> = Ok(value: T) | Err(error: Error)

  /** What a compound assignment leaves behind: it either finished or threw
      (and then `*this` is unchanged). */
  datatype Status = Success | Failure(error: Error)

  /** The contents and the dimensions of a matrix. */
  datatype Grid = Grid(data: seq<seq<int>>, rows: nat, cols: nat)
  {
    /** The counters describe the rows: `rows` rows of `cols` entries each. */
    predicate Valid()
    {
      |data| == rows && forall i :: 0 <= i < |data| ==> |data[i]| == cols
    }
  }

  /** Two grids of the same shape with the same entries are the same grid. */
  lemma GridExt(a: Grid, b: Grid)
    requires a.Valid() && b.Valid() && a.rows == b.rows && a.cols == b.cols
    requires forall i, j :: 0 <= i < a.rows && 0 <= j < a.cols ==> a.data[i][j] == b.data[i][j]
    ensures a == b
  {
    forall i | 0 <= i < a.rows
      ensures a.data[i] == b.data[i]
    {
      assert forall j :: 0 <= j < a.cols ==> a.data[i][j] == b.data[i][j];
    }
    assert a.data == b.data;
  }

  // ---------------------------------------------------------------------------
  // Construction and access.
  // ---------------------------------------------------------------------------

  /** `Matrix(rows, cols)`: a `rows` by `cols` grid of zeros. */
  function Zeros(rows: nat, cols: nat): (g: Grid)
    ensures g.Valid() && g.rows == rows && g.cols == cols
    ensures forall i, j :: 0 <= i < rows && 0 <= j < cols ==> g.data[i][j] == 0
  {
    Grid(seq(rows, _ => seq(cols, _ => 0)), rows, cols)
  }

  /** The first loop of `FitMatrix`: the length of the longest of the first
      `k` rows, or 0 when there are none. */
  function MaxWidth(rows: seq<seq<int>>, k: nat): (w: nat)
    requires k <= |rows|
    ensures forall i :: 0 <= i < k ==> |rows[i]| <= w
    ensures k == 0 ==> w == 0
    ensures k > 0 ==> exists i :: 0 <= i < k && |rows[i]| == w
    decreases k
  {
    if k == 0 then 0
    else
      var w := MaxWidth(rows, k - 1);
      if |rows[k - 1]| > w then |rows[k - 1]| else w
  }

  /** `row.resize(w)` on a row no longer than `w`: zeros are appended. */
  function Padded(row: seq<int>, w: nat): (r: seq<int>)
    requires |row| <= w
    ensures |r| == w
  {
    row + seq(w - |row|, _ => 0)
  }

  /** The rows after `FitMatrix`: the column count is the length of the
      longest row and every row is padded with zeros to that length. */
  function Fit(data: seq<seq<int>>): (g: Grid)
    ensures g.Valid() && g.rows == |data|
    ensures forall i :: 0 <= i < |data| ==> |data[i]| <= g.cols
    ensures |data| == 0 ==> g.cols == 0
    ensures |data| > 0 ==> exists i :: 0 <= i < |data| && |data[i]| == g.cols
    ensures forall i, j :: 0 <= i < |data| && 0 <= j < g.cols ==>
      g.data[i][j] == if j < |data[i]| then data[i][j] else 0
  {
    var w := MaxWidth(data, |data|);
    Grid(seq(|data|, i requires 0 <= i < |data| => Padded(data[i], w)), |data|, w)
  }

  /** Rows padded one by one to the longest length are the fitted grid. */
  lemma FitRows(data: seq<seq<int>>, padded: seq<seq<int>>)
    requires |padded| == |data|
    requires forall k :: 0 <= k < |data| ==> padded[k] == Padded(data[k], MaxWidth(data, |data|))
    ensures Grid(padded, |data|, MaxWidth(data, |data|)) == Fit(data)
  {
    assert padded == Fit(data).data;
  }

  /** Rows that all have length `w` have maximum length `w`. */
  lemma {:induction false} MaxWidthUniform(rows: seq<seq<int>>, k: nat, w: nat)
    requires 0 < k <= |rows|
    requires forall i :: 0 <= i < |rows| ==> |rows[i]| == w
    ensures MaxWidth(rows, k) == w
    decreases k
  {
    if k > 1 {
      MaxWidthUniform(rows, k - 1, w);
    }
  }

  /** Fitting a grid that is already a rectangle changes nothing: padding is
      idempotent. */
  lemma FitIdempotent(data: seq<seq<int>>)
    ensures Fit(Fit(data).data) == Fit(data)
  {
    var g := Fit(data);
    if |data| > 0 {
      MaxWidthUniform(g.data, |g.data|, g.cols);
    }
    GridExt(Fit(g.data), g);
  }

  /** The bounds-checked read `operator()(row, col)`: `out_of_range` unless
      the cell exists. */
  function At(g: Grid, row: nat, col: nat): (r: Result<int>)
    requires g.Valid()
    ensures r.Err? <==> !(row < g.rows && col < g.cols)
    ensures r.Err? ==> r.error == OutOfRange
    ensures r.Ok? ==> r.value == g.data[row][col]
  {
    if row >= g.rows || col >= g.cols then Err(OutOfRange)
    else Ok(g.data[row][col])
  }

  /** The grid after a write of `value` through the reference `operator()`
      returns for an existing cell. */
  function Updated(g: Grid, row: nat, col: nat, value: int): (h: Grid)
    requires g.Valid() && row < g.rows && col < g.cols
    ensures h.Valid() && h.rows == g.rows && h.cols == g.cols
  {
    g.(data := g.data[row := g.data[row][col := value]])
  }

  /** A write through `operator()` changes exactly the cell written: reading
      it back gives the value, every other read is as before. */
  lemma AtUpdated(g: Grid, row: nat, col: nat, value: int, r: nat, c: nat)
    requires g.Valid() && row < g.rows && col < g.cols
    ensures At(Updated(g, row, col, value), r, c) == if r == row && c == col then Ok(value) else At(g, r, c)
  {
  }

  // ---------------------------------------------------------------------------
  // Equality and the element-wise operators.
  // ---------------------------------------------------------------------------

  /** `operator==`: equal counters and equal rows. */
  predicate Equal(a: Grid, b: Grid)
  {
    a.rows == b.rows && a.cols == b.cols && |a.data| == |b.data| == a.rows &&
    forall i :: 0 <= i < a.rows ==> a.data[i] == b.data[i]
  }

  /** On grids, `operator==` is exactly equality of the values, and `!=` is
      its negation. */
  lemma EqualIff(a: Grid, b: Grid)
    requires a.Valid() && b.Valid()
    ensures Equal(a, b) <==> a == b
  {
    if Equal(a, b) {
      assert a.data == b.data;
    }
  }

  /** `ForEach(func)`: a copy with `func(i, j, elem)` stored at every cell. */
  function Mapped(g: Grid, f: (nat, nat, int) -> int): (r: Grid)
    requires g.Valid()
    ensures r.Valid() && r.rows == g.rows && r.cols == g.cols
    ensures forall i, j :: 0 <= i < g.rows && 0 <= j < g.cols ==> r.data[i][j] == f(i, j, g.data[i][j])
  {
    Grid(seq(g.rows, i requires 0 <= i < g.rows =>
           seq(g.cols, j requires 0 <= j < g.cols => f(i, j, g.data[i][j]))), g.rows, g.cols)
  }

  /** Unary `-`: every entry negated. */
  function Negated(g: Grid): (r: Grid)
    requires g.Valid()
    ensures r.Valid() && r.rows == g.rows && r.cols == g.cols
    ensures forall i, j :: 0 <= i < g.rows && 0 <= j < g.cols ==> r.data[i][j] == -g.data[i][j]
  {
    Grid(seq(g.rows, i requires 0 <= i < g.rows =>
           seq(g.cols, j requires 0 <= j < g.cols => -g.data[i][j])), g.rows, g.cols)
  }

  /** Negating twice gives the matrix back. */
  lemma NegatedTwice(g: Grid)
    requires g.Valid()
    ensures Negated(Negated(g)) == g
  {
    GridExt(Negated(Negated(g)), g);
  }

  /** Scalar `*`: every entry multiplied by `s`. */
  function Scaled(g: Grid, s: int): (r: Grid)
    requires g.Valid()
    ensures r.Valid() && r.rows == g.rows && r.cols == g.cols
    ensures forall i, j :: 0 <= i < g.rows && 0 <= j < g.cols ==> r.data[i][j] == g.data[i][j] * s
  {
    Grid(seq(g.rows, i requires 0 <= i < g.rows =>
           seq(g.cols, j requires 0 <= j < g.cols => g.data[i][j] * s)), g.rows, g.cols)
  }

  /** Scalar `/`: every entry divided by `s` with C++ truncation. */
  function DividedBy(g: Grid, s: int): (r: Grid)
    requires g.Valid() && s != 0
    ensures r.Valid() && r.rows == g.rows && r.cols == g.cols
    ensures forall i, j :: 0 <= i < g.rows && 0 <= j < g.cols ==> r.data[i][j] == TruncDiv(g.data[i][j], s)
  {
    Grid(seq(g.rows, i requires 0 <= i < g.rows =>
           seq(g.cols, j requires 0 <= j < g.cols => TruncDiv(g.data[i][j], s))), g.rows, g.cols)
  }

  /** Dividing by the scalar a matrix was multiplied by gives it back. */
  lemma ScaledThenDivided(g: Grid, s: int)
    requires g.Valid() && s != 0
    ensures DividedBy(Scaled(g, s), s) == g
  {
    forall i, j | 0 <= i < g.rows && 0 <= j < g.cols
      ensures DividedBy(Scaled(g, s), s).data[i][j] == g.data[i][j]
    {
      TruncDivExact(g.data[i][j] * s, s, g.data[i][j]);
    }
    GridExt(DividedBy(Scaled(g, s), s), g);
  }

  /** Binary `+`: `length_error` unless the shapes agree, otherwise the
      element-wise sum. */
  function Sum(a: Grid, b: Grid): (r: Result<Grid>)
    requires a.Valid() && b.Valid()
    ensures r.Err? <==> a.rows != b.rows || a.cols != b.cols
    ensures r.Err? ==> r.error == LengthError
    ensures r.Ok? ==> r.value.Valid() && r.value.rows == a.rows && r.value.cols == a.cols
    ensures r.Ok? ==> forall i, j :: 0 <= i < a.rows && 0 <= j < a.cols ==>
      r.value.data[i][j] == a.data[i][j] + b.data[i][j]
  {
    if a.rows != b.rows || a.cols != b.cols then Err(LengthError)
    else Ok(Grid(seq(a.rows, i requires 0 <= i < a.rows =>
                   seq(a.cols, j requires 0 <= j < a.cols => a.data[i][j] + b.data[i][j])), a.rows, a.cols))
  }

  /** Addition does not depend on the order of the operands. */
  lemma SumCommutes(a: Grid, b: Grid)
    requires a.Valid() && b.Valid()
    ensures Sum(a, b) == Sum(b, a)
  {
    if Sum(a, b).Ok? {
      GridExt(Sum(a, b).value, Sum(b, a).value);
    }
  }

  /** Binary `-`, as the source writes it: `*this + -1 * other`. */
  function Difference(a: Grid, b: Grid): (r: Result<Grid>)
    requires a.Valid() && b.Valid()
  {
    Sum(a, Scaled(b, -1))
  }

  /** Binary `-` throws `length_error` exactly on a shape mismatch and
      otherwise subtracts entry by entry. */
  lemma DifferenceEntries(a: Grid, b: Grid)
    requires a.Valid() && b.Valid()
    ensures Difference(a, b).Err? <==> a.rows != b.rows || a.cols != b.cols
    ensures Difference(a, b).Err? ==> Difference(a, b).error == LengthError
    ensures Difference(a, b).Ok? ==>
      Difference(a, b).value.Valid() && Difference(a, b).value.rows == a.rows && Difference(a, b).value.cols == a.cols
    ensures Difference(a, b).Ok? ==> forall i, j :: 0 <= i < a.rows && 0 <= j < a.cols ==>
      Difference(a, b).value.data[i][j] == a.data[i][j] - b.data[i][j]
  {
  }

  /** Adding back what was subtracted gives the first operand. */
  lemma DifferenceThenSum(a: Grid, b: Grid)
    requires a.Valid() && b.Valid() && a.rows == b.rows && a.cols == b.cols
    ensures Difference(a, b).Ok? && Sum(Difference(a, b).value, b) == Ok(a)
  {
    DifferenceEntries(a, b);
    GridExt(Sum(Difference(a, b).value, b).value, a);
  }

  // ---------------------------------------------------------------------------
  // Trace, transpose, product and power.
  // ---------------------------------------------------------------------------

  function Min(a: nat, b: nat): nat
  {
    if a < b then a else b
  }

  /** The sum of the diagonal entries `(0, 0) .. (k-1, k-1)`. */
  function DiagonalSum(g: Grid, k: nat): int
    requires g.Valid() && k <= g.rows && k <= g.cols
    decreases k
  {
    if k == 0 then 0 else DiagonalSum(g, k - 1) + g.data[k - 1][k - 1]
  }

  /** `Trace`: the sum of the entries with equal row and column index; a
      non-square matrix contributes its leading square part. */
  function TraceOf(g: Grid): int
    requires g.Valid()
  {
    DiagonalSum(g, Min(g.rows, g.cols))
  }

  /** `Transpose`: a `cols` by `rows` grid whose entry `(i, j)` is entry
      `(j, i)` of the original. */
  function Transposed(g: Grid): (r: Grid)
    requires g.Valid()
    ensures r.Valid() && r.rows == g.cols && r.cols == g.rows
    ensures forall i, j :: 0 <= i < g.cols && 0 <= j < g.rows ==> r.data[i][j] == g.data[j][i]
  {
    Grid(seq(g.cols, i requires 0 <= i < g.cols =>
           seq(g.rows, j requires 0 <= j < g.rows => g.data[j][i])), g.cols, g.rows)
  }

  /** Transposing twice gives the matrix back. */
  lemma TransposeTwice(g: Grid)
    requires g.Valid()
    ensures Transposed(Transposed(g)) == g
  {
    GridExt(Transposed(Transposed(g)), g);
  }

  lemma {:induction false} DiagonalSumTransposed(g: Grid, k: nat)
    requires g.Valid() && k <= g.rows && k <= g.cols
    ensures DiagonalSum(Transposed(g), k) == DiagonalSum(g, k)
    decreases k
  {
    if k > 0 {
      DiagonalSumTransposed(g, k - 1);
    }
  }

  /** Transposing keeps the trace. */
  lemma TraceTransposed(g: Grid)
    requires g.Valid()
    ensures TraceOf(Transposed(g)) == TraceOf(g)
  {
    DiagonalSumTransposed(g, Min(g.rows, g.cols));
  }

  /** The inner loop of `operator*` after `k` steps:
      `a[i][0]*b[0][j] + .. + a[i][k-1]*b[k-1][j]`. */
  function Dot(a: seq<seq<int>>, b: seq<seq<int>>, i: nat, j: nat, k: nat): int
    requires i < |a| && k <= |a[i]| && k <= |b| && forall t :: 0 <= t < k ==> j < |b[t]|
    decreases k
  {
    if k == 0 then 0 else Dot(a, b, i, j, k - 1) + a[i][k - 1] * b[k - 1][j]
  }

  /** Binary `*`: `length_error` unless the column count of the left matrix
      is the row count of the right one; otherwise entry `(i, j)` is the dot
      product of row `i` and column `j`. */
  function Product(a: Grid, b: Grid): (r: Result<Grid>)
    requires a.Valid() && b.Valid()
    ensures r.Err? <==> a.cols != b.rows
    ensures r.Err? ==> r.error == LengthError
    ensures r.Ok? ==> r.value.Valid() && r.value.rows == a.rows && r.value.cols == b.cols
    ensures r.Ok? ==> forall i, j :: 0 <= i < a.rows && 0 <= j < b.cols ==>
      r.value.data[i][j] == Dot(a.data, b.data, i, j, a.cols)
  {
    if a.cols != b.rows then Err(LengthError)
    else Ok(Grid(seq(a.rows, i requires 0 <= i < a.rows =>
                   seq(b.cols, j requires 0 <= j < b.cols => Dot(a.data, b.data, i, j, a.cols))), a.rows, b.cols))
  }

  /** The `n` by `n` identity, as `pow(m, 0)` builds it. */
  function Identity(n: nat): (r: Grid)
    ensures r.Valid() && r.rows == n && r.cols == n
  {
    Grid(seq(n, i requires 0 <= i < n => seq(n, j requires 0 <= j < n => if i == j then 1 else 0)), n, n)
  }

  lemma {:induction false} DotIdentityRight(g: Grid, i: nat, j: nat, k: nat)
    requires g.Valid() && i < g.rows && j < g.cols && k <= g.cols
    ensures Dot(g.data, Identity(g.cols).data, i, j, k) == if j < k then g.data[i][j] else 0
    decreases k
  {
    if k > 0 {
      DotIdentityRight(g, i, j, k - 1);
    }
  }

  lemma {:induction false} DotIdentityLeft(g: Grid, i: nat, j: nat, k: nat)
    requires g.Valid() && i < g.rows && j < g.cols && k <= g.rows
    ensures Dot(Identity(g.rows).data, g.data, i, j, k) == if i < k then g.data[i][j] else 0
    decreases k
  {
    if k > 0 {
      DotIdentityLeft(g, i, j, k - 1);
    }
  }

  /** The identity is a unit of the product on both sides. */
  lemma ProductIdentity(g: Grid)
    requires g.Valid()
    ensures Product(g, Identity(g.cols)) == Ok(g)
    ensures Product(Identity(g.rows), g) == Ok(g)
  {
    forall i, j | 0 <= i < g.rows && 0 <= j < g.cols
      ensures Product(g, Identity(g.cols)).value.data[i][j] == g.data[i][j]
      ensures Product(Identity(g.rows), g).value.data[i][j] == g.data[i][j]
    {
      DotIdentityRight(g, i, j, g.cols);
      DotIdentityLeft(g, i, j, g.rows);
    }
    GridExt(Product(g, Identity(g.cols)).value, g);
    GridExt(Product(Identity(g.rows), g).value, g);
  }

  /** `pow(matrix, power)`: `length_error` unless the matrix is square; the
      identity for power 0; `m * pow(m, p - 1)` for odd `p`; the square of
      `pow(m, p / 2)` for even `p`. */
  function Pow(g: Grid, power: nat): (r: Result<Grid>)
    requires g.Valid()
    ensures r.Err? <==> g.rows != g.cols
    ensures r.Err? ==> r.error == LengthError
    ensures r.Ok? ==> r.value.Valid() && r.value.rows == g.rows && r.value.cols == g.rows
    decreases power
  {
    if g.rows != g.cols then Err(LengthError)
    else if power == 0 then Ok(Identity(g.rows))
    else if power % 2 == 1 then Product(g, Pow(g, power - 1).value)
    else
      var t := Pow(g, power / 2).value;
      Product(t, t)
  }

  /** The first two powers of a square matrix: the identity and the matrix
      itself. */
  lemma PowZeroOne(g: Grid)
    requires g.Valid() && g.rows == g.cols
    ensures Pow(g, 0) == Ok(Identity(g.rows))
    ensures Pow(g, 1) == Ok(g)
  {
    ProductIdentity(g);
  }

  /** Every power of the identity is the identity. */
  lemma {:induction false} PowIdentity(n: nat, power: nat)
    ensures Pow(Identity(n), power) == Ok(Identity(n))
    decreases power
  {
    if power > 0 {
      if power % 2 == 1 {
        PowIdentity(n, power - 1);
      } else {
        PowIdentity(n, power / 2);
      }
      ProductIdentity(Identity(n));
    }
  }

  // ---------------------------------------------------------------------------
  // Callbacks handed to `ForEach` by the operators.
  // ---------------------------------------------------------------------------

  function NegateEntry(i: nat, j: nat, elem: int): int
  {
    -elem
  }

  function ScaleEntry(s: int): (nat, nat, int) -> int
  {
    (i: nat, j: nat, elem: int) => elem * s
  }

  function DivideEntry(s: int): (nat, nat, int) -> int
  {
    (i: nat, j: nat, elem: int) => if s == 0 then elem else TruncDiv(elem, s)
  }

  /** The callback of `operator+`: the sum of the two operands' entries. */
  function SumEntry(a: seq<seq<int>>, b: seq<seq<int>>): (nat, nat, int) -> int
  {
    (i: nat, j: nat, elem: int) =>
      if i < |a| && i < |b| && j < |a[i]| && j < |b[i]| then a[i][j] + b[i][j] else elem
  }

  /** The callback of `Transpose`: entry `(j, i)` of the original. */
  function TransposeEntry(a: seq<seq<int>>): (nat, nat, int) -> int
  {
    (i: nat, j: nat, elem: int) => if j < |a| && i < |a[j]| then a[j][i] else elem
  }

  /** The callback of `pow(m, 0)`: 1 on the diagonal, 0 elsewhere. */
  function IdentityEntry(i: nat, j: nat, elem: int): int
  {
    if i == j then 1 else 0
  }

  // ---------------------------------------------------------------------------
  // The object.
  // ---------------------------------------------------------------------------

  class Matrix {
    var data: seq<seq<int>>
    var rows: nat
    var cols: nat

    /** The value the three fields hold. */
    function Value(): Grid
      reads this
    {
      Grid(data, rows, cols)
    }

    predicate Valid()
      reads this
    {
      Value().Valid()
    }

    /** `rows()`: the number of rows held. */
    function Rows(): (r: nat)
      reads this
      requires Valid()
      ensures r == |data|
    {
      rows
    }

    /** `columns()`: the length every row has. */
    function Columns(): (c: nat)
      reads this
      requires Valid()
      ensures forall i :: 0 <= i < |data| ==> |data[i]| == c
    {
      cols
    }

    /** `Matrix()`: no rows and no columns. */
    constructor Empty()
      ensures Valid() && Value() == Grid([], 0, 0)
    {
      data := [];
      rows := 0;
      cols := 0;
    }

    /** `Matrix(rows, cols)`: zeros. */
    constructor Zero(rows: nat, cols: nat)
      ensures Valid() && Value() == Zeros(rows, cols)
    {
      this.data := Zeros(rows, cols).data;
      this.rows := rows;
      this.cols := cols;
    }

    /** `Matrix(const vector<vector<T>>&)`: the rows are copied and fitted.
        The constructor then advances an iterator past the first entry of the
        first row, so the source needs a first row with an entry. */
    constructor FromVector(other: seq<seq<int>>)
      requires |other| > 0 && |other[0]| > 0
      ensures Valid() && Value() == Fit(other)
    {
      data := other;
      rows := |other|;
      cols := 0;
      new;
      FitMatrix();
    }

    /** `Matrix(initializer_list)`: the rows are copied one at a time into a
        vector of `list.size()` empty rows and then fitted. */
    constructor FromList(list: seq<seq<int>>)
      ensures Valid() && Value() == Fit(list)
    {
      rows := |list|;
      cols := 0;
      data := seq(|list|, _ => []);
      new;
      var rowInd := 0;
      while rowInd < |list|
        invariant 0 <= rowInd <= |list| && rows == |list| && |data| == |list|
        invariant forall k :: 0 <= k < |list| ==> data[k] == if k < rowInd then list[k] else []
      {
        data := data[rowInd := list[rowInd]];
        rowInd := rowInd + 1;
      }
      assert data == list;
      FitMatrix();
    }

    /** The copy constructor. */
    constructor Copy(other: Matrix)
      ensures Value() == other.Value()
    {
      data := other.data;
      rows := other.rows;
      cols := other.cols;
    }

    /** The move constructor: the contents move over and `other` is left
        with no rows and no columns. */
    constructor Move(other: Matrix)
      modifies other
      ensures Value() == old(other.Value())
      ensures other.Valid() && other.Value() == Grid([], 0, 0)
    {
      data := other.data;
      rows := other.rows;
      cols := other.cols;
      new;
      other.data := [];
      other.rows := 0;
      other.cols := 0;
    }

    /** `FitMatrix`: `cols_` becomes the length of the longest row and every
        row is resized to it. `rows_` already counts the rows. */
    method FitMatrix()
      requires rows == |data|
      modifies this
      ensures Valid() && Value() == Fit(old(data))
    {
      var maxCol := 0;
      var i := 0;
      while i < |data|
        invariant 0 <= i <= |data| && maxCol == MaxWidth(data, i)
      {
        if |data[i]| > maxCol {
          maxCol := |data[i]|;
        }
        i := i + 1;
      }
      cols := maxCol;
      i := 0;
      while i < |data|
        invariant 0 <= i <= |data| && |data| == |old(data)| && rows == |data| && cols == maxCol
        invariant forall k :: 0 <= k < |data| ==> data[k] == if k < i then Padded(old(data)[k], maxCol) else old(data)[k]
      {
        data := data[i := Padded(data[i], maxCol)];
        i := i + 1;
      }
      FitRows(old(data), data);
    }

    /** The reference `operator()(row, col)` returns, written through: the
        cell changes, or `out_of_range` is thrown and nothing changes. */
    method Set(row: nat, col: nat, value: int) returns (s: Status)
      requires Valid()
      modifies this
      ensures Valid()
      ensures At(old(Value()), row, col).Err? ==> s == Failure(OutOfRange) && Value() == old(Value())
      ensures At(old(Value()), row, col).Ok? ==> s == Success && Value() == Updated(old(Value()), row, col, value)
    {
      if row >= rows || col >= cols {
        return Failure(OutOfRange);
      }
      data := data[row := data[row][col := value]];
      return Success;
    }

    /** `operator==`: the counters first, then the rows one by one. */
    method Equals(other: Matrix) returns (b: bool)
      requires Valid() && other.Valid()
      ensures b == Equal(Value(), other.Value())
    {
      if rows != other.rows || cols != other.cols {
        return false;
      }
      var i := 0;
      while i < rows
        invariant 0 <= i <= rows
        invariant forall k :: 0 <= k < i ==> data[k] == other.data[k]
      {
        if data[i] != other.data[i] {
          return false;
        }
        i := i + 1;
      }
      return true;
    }

    /** `operator!=`. */
    method NotEquals(other: Matrix) returns (b: bool)
      requires Valid() && other.Valid()
      ensures b == !Equal(Value(), other.Value())
    {
      var e := Equals(other);
      b := !e;
    }

    /** `ForEach(func)`: a copy of the matrix on which `func` was applied at
        every cell in row-major order; the receiver is unchanged. */
    method ForEach(f: (nat, nat, int) -> int) returns (m: Matrix)
      requires Valid()
      ensures fresh(m) && m.Valid() && m.Value() == Mapped(Value(), f)
    {
      m := new Matrix.Copy(this);
      var i := 0;
      while i < rows
        invariant 0 <= i <= rows
        invariant m.rows == rows && m.cols == cols && |m.data| == rows
        invariant forall k :: 0 <= k < rows ==> |m.data[k]| == cols
        invariant forall k, c :: 0 <= k < rows && 0 <= c < cols ==>
          m.data[k][c] == if k < i then f(k, c, data[k][c]) else data[k][c]
      {
        var j := 0;
        while j < cols
          invariant 0 <= j <= cols
          invariant m.rows == rows && m.cols == cols && |m.data| == rows
          invariant forall k :: 0 <= k < rows ==> |m.data[k]| == cols
          invariant forall k, c :: 0 <= k < rows && 0 <= c < cols ==>
            m.data[k][c] == if k < i || (k == i && c < j) then f(k, c, data[k][c]) else data[k][c]
        {
          m.data := m.data[i := m.data[i][j := f(i, j, m.data[i][j])]];
          j := j + 1;
        }
        i := i + 1;
      }
      GridExt(m.Value(), Mapped(Value(), f));
    }

    /** Unary `-`. */
    method Negate() returns (m: Matrix)
      requires Valid()
      ensures fresh(m) && m.Valid() && m.Value() == Negated(Value())
    {
      m := ForEach(NegateEntry);
      GridExt(m.Value(), Negated(Value()));
    }

    /** Unary `+`: an equal copy. */
    method Plus() returns (m: Matrix)
      requires Valid()
      ensures fresh(m) && m.Valid() && m.Value() == Value()
    {
      m := new Matrix.Copy(this);
    }

    /** Scalar `*`. */
    method Scale(s: int) returns (m: Matrix)
      requires Valid()
      ensures fresh(m) && m.Valid() && m.Value() == Scaled(Value(), s)
    {
      m := ForEach(ScaleEntry(s));
      GridExt(m.Value(), Scaled(Value(), s));
    }

    /** `scalar * mat`, which the source forwards to `mat * scalar`. */
    static method ScalarTimes(s: int, mat: Matrix) returns (m: Matrix)
      requires mat.Valid()
      ensures fresh(m) && m.Valid() && m.Value() == Scaled(mat.Value(), s)
    {
      m := mat.Scale(s);
    }

    /** Scalar `/`, with C++ truncation; the source leaves division by zero
        undefined. */
    method Divide(s: int) returns (m: Matrix)
      requires Valid() && s != 0
      ensures fresh(m) && m.Valid() && m.Value() == DividedBy(Value(), s)
    {
      m := ForEach(DivideEntry(s));
      GridExt(m.Value(), DividedBy(Value(), s));
    }

    /** Binary `+`: a zero matrix of the same shape filled by `ForEach`. */
    method Add(other: Matrix) returns (r: Result<Matrix>)
      requires Valid() && other.Valid()
      ensures r.Err? <==> Sum(Value(), other.Value()).Err?
      ensures r.Err? ==> r.error == LengthError
      ensures r.Ok? ==> fresh(r.value) && r.value.Valid() && r.value.Value() == Sum(Value(), other.Value()).value
    {
      if rows != other.rows || cols != other.cols {
        return Err(LengthError);
      }
      var mat := new Matrix.Zero(rows, cols);
      var m := mat.ForEach(SumEntry(data, other.data));
      GridExt(m.Value(), Sum(Value(), other.Value()).value);
      return Ok(m);
    }

    /** Binary `-`: `*this + -1 * other`. */
    method Subtract(other: Matrix) returns (r: Result<Matrix>)
      requires Valid() && other.Valid()
      ensures r.Err? <==> Difference(Value(), other.Value()).Err?
      ensures r.Err? ==> r.error == LengthError
      ensures r.Ok? ==> fresh(r.value) && r.value.Valid() && r.value.Value() == Difference(Value(), other.Value()).value
    {
      var negated := ScalarTimes(-1, other);
      r := Add(negated);
    }

    /** `Trace`: a scan of every cell, adding the ones with `i == j`. */
    method Trace() returns (result: int)
      requires Valid()
      ensures result == TraceOf(Value())
    {
      result := 0;
      var i := 0;
      while i < rows
        invariant 0 <= i <= rows
        invariant result == DiagonalSum(Value(), Min(i, cols))
      {
        var j := 0;
        while j < cols
          invariant 0 <= j <= cols
          invariant result == DiagonalSum(Value(), Min(i, cols)) + if i < j then data[i][i] else 0
        {
          if i == j {
            result := result + data[i][j];
          }
          j := j + 1;
        }
        i := i + 1;
      }
    }

    /** `Transpose`: a `cols` by `rows` zero matrix filled by `ForEach`. */
    method Transpose() returns (m: Matrix)
      requires Valid()
      ensures fresh(m) && m.Valid() && m.Value() == Transposed(Value())
    {
      var mat := new Matrix.Zero(cols, rows);
      m := mat.ForEach(TransposeEntry(data));
      GridExt(m.Value(), Transposed(Value()));
    }

    /** The callback of `operator*` at cell `(i, j)`: the loop over `k`. */
    method DotAt(other: Matrix, i: nat, j: nat) returns (value: int)
      requires Valid() && other.Valid() && cols == other.rows && i < rows && j < other.cols
      ensures value == Dot(data, other.data, i, j, cols)
    {
      value := 0;
      var k := 0;
      while k < cols
        invariant 0 <= k <= cols && value == Dot(data, other.data, i, j, k)
      {
        value := value + data[i][k] * other.data[k][j];
        k := k + 1;
      }
    }

    /** Binary `*`: a `rows` by `other.cols` zero matrix whose every cell
        receives its dot product. */
    method Multiply(other: Matrix) returns (r: Result<Matrix>)
      requires Valid() && other.Valid()
      ensures r.Err? <==> Product(Value(), other.Value()).Err?
      ensures r.Err? ==> r.error == LengthError
      ensures r.Ok? ==> fresh(r.value) && r.value.Valid() && r.value.Value() == Product(Value(), other.Value()).value
    {
      if cols != other.rows {
        return Err(LengthError);
      }
      var m := new Matrix.Zero(rows, other.cols);
      var i := 0;
      while i < rows
        invariant 0 <= i <= rows
        invariant m.rows == rows && m.cols == other.cols && |m.data| == rows
        invariant forall k :: 0 <= k < rows ==> |m.data[k]| == other.cols
        invariant forall k, c :: 0 <= k < i && 0 <= c < other.cols ==> m.data[k][c] == Dot(data, other.data, k, c, cols)
      {
        var j := 0;
        while j < other.cols
          invariant 0 <= j <= other.cols
          invariant m.rows == rows && m.cols == other.cols && |m.data| == rows
          invariant forall k :: 0 <= k < rows ==> |m.data[k]| == other.cols
          invariant forall k, c :: 0 <= k < rows && 0 <= c < other.cols && (k < i || (k == i && c < j)) ==>
            m.data[k][c] == Dot(data, other.data, k, c, cols)
        {
          var value := DotAt(other, i, j);
          m.data := m.data[i := m.data[i][j := value]];
          j := j + 1;
        }
        i := i + 1;
      }
      GridExt(m.Value(), Product(Value(), other.Value()).value);
      return Ok(m);
    }

    /** `swap(lhs, rhs)`: the three fields are exchanged. */
    static method Swap(lhs: Matrix, rhs: Matrix)
      modifies lhs, rhs
      ensures lhs.Value() == old(rhs.Value()) && rhs.Value() == old(lhs.Value())
    {
      lhs.rows, rhs.rows := rhs.rows, lhs.rows;
      lhs.cols, rhs.cols := rhs.cols, lhs.cols;
      lhs.data, rhs.data := rhs.data, lhs.data;
    }

    /** Move assignment: the two objects are swapped. */
    method MoveAssign(other: Matrix)
      modifies this, other
      ensures Value() == old(other.Value()) && other.Value() == old(Value())
    {
      Swap(this, other);
    }

    /** Copy assignment: a copy of `other` is moved into `*this`. */
    method Assign(other: Matrix)
      modifies this
      ensures Value() == old(other.Value())
    {
      var copy := new Matrix.Copy(other);
      MoveAssign(copy);
    }

    /** `+=`: `*this = *this + other`. */
    method AddAssign(other: Matrix) returns (s: Status)
      requires Valid() && other.Valid()
      modifies this
      ensures Valid()
      ensures Sum(old(Value()), old(other.Value())).Err? ==> s == Failure(LengthError) && Value() == old(Value())
      ensures Sum(old(Value()), old(other.Value())).Ok? ==> s == Success && Value() == Sum(old(Value()), old(other.Value())).value
    {
      var r := Add(other);
      if r.Err? {
        return Failure(r.error);
      }
      MoveAssign(r.value);
      return Success;
    }

    /** `-=`: `*this = *this - other`. */
    method SubtractAssign(other: Matrix) returns (s: Status)
      requires Valid() && other.Valid()
      modifies this
      ensures Valid()
      ensures Difference(old(Value()), old(other.Value())).Err? ==> s == Failure(LengthError) && Value() == old(Value())
      ensures Difference(old(Value()), old(other.Value())).Ok? ==>
        s == Success && Value() == Difference(old(Value()), old(other.Value())).value
    {
      var r := Subtract(other);
      if r.Err? {
        return Failure(r.error);
      }
      MoveAssign(r.value);
      return Success;
    }

    /** `*=` with a matrix: `*this = *this * other`. */
    method MultiplyAssign(other: Matrix) returns (s: Status)
      requires Valid() && other.Valid()
      modifies this
      ensures Valid()
      ensures Product(old(Value()), old(other.Value())).Err? ==> s == Failure(LengthError) && Value() == old(Value())
      ensures Product(old(Value()), old(other.Value())).Ok? ==>
        s == Success && Value() == Product(old(Value()), old(other.Value())).value
    {
      var r := Multiply(other);
      if r.Err? {
        return Failure(r.error);
      }
      MoveAssign(r.value);
      return Success;
    }

    /** `*=` with a scalar. */
    method ScaleAssign(scalar: int)
      requires Valid()
      modifies this
      ensures Valid() && Value() == Scaled(old(Value()), scalar)
    {
      var m := Scale(scalar);
      MoveAssign(m);
    }

    /** `/=` with a scalar. */
    method DivideAssign(scalar: int)
      requires Valid() && scalar != 0
      modifies this
      ensures Valid() && Value() == DividedBy(old(Value()), scalar)
    {
      var m := Divide(scalar);
      MoveAssign(m);
    }
  }

  /** `pow(matrix, 0)` as the source builds it: a square zero matrix with
      `static_cast<T>(i == j)` stored at every cell. */
  method IdentityMatrix(n: nat) returns (m: Matrix)
    ensures fresh(m) && m.Valid() && m.Value() == Identity(n)
  {
    var mat := new Matrix.Zero(n, n);
    m := mat.ForEach(IdentityEntry);
    GridExt(m.Value(), Identity(n));
  }

  /** `pow(matrix, power)`, recursive as in `Matrix.t.h`. */
  method PowMatrix(matrix: Matrix, power: nat) returns (r: Result<Matrix>)
    requires matrix.Valid()
    ensures r.Err? <==> Pow(matrix.Value(), power).Err?
    ensures r.Err? ==> r.error == LengthError
    ensures r.Ok? ==> fresh(r.value) && r.value.Valid() && r.value.Value() == Pow(matrix.Value(), power).value
    decreases power
  {
    if matrix.rows != matrix.cols {
      return Err(LengthError);
    }
    if power == 0 {
      var id := IdentityMatrix(matrix.rows);
      return Ok(id);
    }
    if power % 2 == 1 {
      var rest := PowMatrix(matrix, power - 1);
      r := matrix.Multiply(rest.value);
      return;
    }
    var tmp := PowMatrix(matrix, power / 2);
    r := tmp.value.Multiply(tmp.value);
  }
}
