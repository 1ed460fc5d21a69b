/** The parametric solution records of the solver (`ExpressionPart`,
    `LinearSolution`), the solution set `GetSolutions` reads off a grid, and the
    theorem that this description is exact: a vector solves the grid's
    equations if and only if it satisfies every returned solution. */
module Solutions {
  import opened Rows

  /** A term `coeff * x_varIndex`; variable indices start at 1 and the index 0
      marks the constant term. */
  datatype ExpressionPart = ExpressionPart(coeff: int, varIndex: int)

  /** `variable.coeff * x_variable.varIndex == sum of expression`. */
  datatype LinearSolution = LinearSolution(variable: ExpressionPart, expression: seq<ExpressionPart>)

  /** The constructor `LinearSolution(coeff, ind)`: the defined variable is
      `(coeff, ind)` and the expression starts empty. */
  function NewSolution(coeff: int, ind: int): (s: LinearSolution)
    ensures s.variable.coeff == coeff && s.variable.varIndex == ind
    ensures |s.expression| == 0
  {
    LinearSolution(ExpressionPart(coeff, ind), [])
  }

  /** The terms `(-row[v], v + 1)` for every column `lo <= v < hi` with a
      nonzero entry. */
  function FreeTerms(row: seq<int>, lo: nat, hi: nat): (ts: seq<ExpressionPart>)
    requires lo <= hi <= |row|
    ensures |ts| <= hi - lo
    decreases hi - lo
  {
    if hi == lo then []
    else if row[hi - 1] == 0 then FreeTerms(row, lo, hi - 1)
    else FreeTerms(row, lo, hi - 1) + [ExpressionPart(-row[hi - 1], hi)]
  }

  /** Every free term names a column in `lo..hi` (as a 1-based index) and
      carries the negation of that column's nonzero entry; the terms follow
      the column order. */
  lemma {:induction false} FreeTermsShape(row: seq<int>, lo: nat, hi: nat)
    requires lo <= hi <= |row|
    ensures forall m :: 0 <= m < |FreeTerms(row, lo, hi)| ==>
      var t := FreeTerms(row, lo, hi)[m];
      lo + 1 <= t.varIndex <= hi && t.coeff == -row[t.varIndex - 1] && t.coeff != 0
    ensures forall a, b :: 0 <= a < b < |FreeTerms(row, lo, hi)| ==>
      FreeTerms(row, lo, hi)[a].varIndex < FreeTerms(row, lo, hi)[b].varIndex
    decreases hi - lo
  {
    if lo < hi {
      FreeTermsShape(row, lo, hi - 1);
    }
  }

  /** The solution read off a row whose leading coefficient sits in column
      `p`: variable `(row[p], p + 1)`, the negated later coefficients as terms,
      and the right-hand side as a constant term only when it is nonzero. */
  function RowSolution(row: seq<int>, n: nat): LinearSolution
    requires |row| == n + 1 && Lead(row, n) < n
  {
    var p := Lead(row, n);
    var terms := FreeTerms(row, p + 1, n);
    LinearSolution(ExpressionPart(row[p], p + 1),
                   if row[n] != 0 then terms + [ExpressionPart(row[n], 0)] else terms)
  }

  /** The row reads `0 == nonzero`. */
  predicate Inconsistent(row: seq<int>, n: nat)
    requires |row| == n + 1
  {
    Lead(row, n) == n && row[n] != 0
  }

  /** Some row reads `0 == nonzero`. */
  predicate HasInconsistentRow(g: seq<seq<int>>, n: nat)
    requires Rect(g, n + 1)
  {
    exists i :: 0 <= i < |g| && Inconsistent(g[i], n)
  }

  /** The solutions emitted for rows `0 .. k-1`. */
  function PivotSolutionsUpTo(g: seq<seq<int>>, n: nat, k: nat): (sols: seq<LinearSolution>)
    requires Rect(g, n + 1) && k <= |g|
    ensures |sols| == |PivotColumnsUpTo(g, n, k)|
  {
    if k == 0 then []
    else
      var last := g[k - 1];
      PivotSolutionsUpTo(g, n, k - 1) + (if Lead(last, n) < n then [RowSolution(last, n)] else [])
  }

  /** The `m`-th solution emitted for rows `0 .. k-1` is for the variable of
      the `m`-th pivot column among those rows. */
  lemma {:induction false} PivotSolutionVariable(g: seq<seq<int>>, n: nat, k: nat, m: nat)
    requires Rect(g, n + 1) && k <= |g| && m < |PivotSolutionsUpTo(g, n, k)|
    ensures m < |PivotColumnsUpTo(g, n, k)|
    ensures PivotSolutionsUpTo(g, n, k)[m].variable.varIndex == PivotColumnsUpTo(g, n, k)[m] + 1
  {
    var last := g[k - 1];
    var prev := PivotSolutionsUpTo(g, n, k - 1);
    var cs := PivotColumnsUpTo(g, n, k - 1);
    if m < |prev| {
      PivotSolutionVariable(g, n, k - 1, m);
      assert PivotSolutionsUpTo(g, n, k)[m] == prev[m];
      assert PivotColumnsUpTo(g, n, k)[m] == cs[m];
    } else {
      assert PivotSolutionsUpTo(g, n, k)[m] == RowSolution(last, n);
      assert PivotColumnsUpTo(g, n, k)[m] == Lead(last, n);
    }
  }

  /** One solution per row with a nonzero coefficient, in row order; the
      `m`-th defines the variable of the `m`-th recorded pivot column. */
  lemma PivotSolutionsVariables(g: seq<seq<int>>, n: nat)
    requires Rect(g, n + 1)
    ensures |PivotSolutionsUpTo(g, n, |g|)| == |PivotColumns(g, n)|
    ensures forall m :: 0 <= m < |PivotSolutionsUpTo(g, n, |g|)| ==>
      PivotSolutionsUpTo(g, n, |g|)[m].variable.varIndex == PivotColumns(g, n)[m] + 1
  {
    forall m | 0 <= m < |PivotSolutionsUpTo(g, n, |g|)|
      ensures PivotSolutionsUpTo(g, n, |g|)[m].variable.varIndex == PivotColumns(g, n)[m] + 1
    {
      PivotSolutionVariable(g, n, |g|, m);
    }
  }

  /** A row reading `0 == nonzero` makes the whole grid inconsistent. */
  lemma InconsistentWitness(g: seq<seq<int>>, n: nat, i: nat)
    requires Rect(g, n + 1) && i < |g| && Inconsistent(g[i], n)
    ensures HasInconsistentRow(g, n) && ExtractSolutions(g, n) == []
  {
  }

  /** No row before `k` reads `0 == nonzero`. */
  predicate ConsistentUpTo(g: seq<seq<int>>, n: nat, k: nat)
    requires Rect(g, n + 1) && k <= |g|
  {
    k == 0 || (ConsistentUpTo(g, n, k - 1) && !Inconsistent(g[k - 1], n))
  }

  /** Row by row is every row at once. */
  lemma {:induction false} ConsistentUpToAll(g: seq<seq<int>>, n: nat, k: nat)
    requires Rect(g, n + 1) && k <= |g|
    ensures ConsistentUpTo(g, n, k) <==> forall i :: 0 <= i < k ==> !Inconsistent(g[i], n)
  {
    if k > 0 {
      ConsistentUpToAll(g, n, k - 1);
    }
  }

  /** The scan of all rows finds no row reading `0 == nonzero` exactly when
      there is none, and then every pivot row yields its solution. */
  lemma ConsistentWitness(g: seq<seq<int>>, n: nat)
    requires Rect(g, n + 1)
    ensures ConsistentUpTo(g, n, |g|) <==> !HasInconsistentRow(g, n)
    ensures ConsistentUpTo(g, n, |g|) ==> ExtractSolutions(g, n) == PivotSolutionsUpTo(g, n, |g|)
  {
    ConsistentUpToAll(g, n, |g|);
  }

  /** What `GetSolutions` returns: nothing when some row reads `0 == nonzero`,
      otherwise the pivot rows' solutions. */
  function ExtractSolutions(g: seq<seq<int>>, n: nat): seq<LinearSolution>
    requires Rect(g, n + 1)
  {
    if HasInconsistentRow(g, n) then [] else PivotSolutionsUpTo(g, n, |g|)
  }

  // ---------------------------------------------------------------------------
  // Meaning of a solution record.
  // ---------------------------------------------------------------------------

  function TermValue(t: ExpressionPart, x: seq<int>): int
  {
    if t.varIndex == 0 then t.coeff
    else if 1 <= t.varIndex <= |x| then t.coeff * x[t.varIndex - 1]
    else 0
  }

  function Eval(ts: seq<ExpressionPart>, x: seq<int>): int
  {
    if |ts| == 0 then 0 else Eval(ts[..|ts| - 1], x) + TermValue(ts[|ts| - 1], x)
  }

  /** `x` satisfies the relation recorded by `s`. */
  predicate Holds(s: LinearSolution, x: seq<int>)
  {
    1 <= s.variable.varIndex <= |x| &&
    s.variable.coeff * x[s.variable.varIndex - 1] == Eval(s.expression, x)
  }

  predicate AllHold(sols: seq<LinearSolution>, x: seq<int>)
  {
    forall m :: 0 <= m < |sols| ==> Holds(sols[m], x)
  }

  lemma {:induction false} DotSplit(row: seq<int>, x: seq<int>, lo: nat, mid: nat, hi: nat)
    requires lo <= mid <= hi <= |x| && hi <= |row|
    ensures PartialDot(row, x, lo, hi) == PartialDot(row, x, lo, mid) + PartialDot(row, x, mid, hi)
    decreases hi - mid
  {
    if mid < hi {
      DotSplit(row, x, lo, mid, hi - 1);
    }
  }

  lemma {:induction false} DotZero(row: seq<int>, x: seq<int>, lo: nat, hi: nat)
    requires lo <= hi <= |x| && hi <= |row|
    requires forall j :: lo <= j < hi ==> row[j] == 0
    ensures PartialDot(row, x, lo, hi) == 0
    decreases hi - lo
  {
    if lo < hi {
      DotZero(row, x, lo, hi - 1);
    }
  }

  lemma FreeTermValue(row: seq<int>, x: seq<int>, hi: nat)
    requires 1 <= hi <= |x| && |row| == |x| + 1
    ensures TermValue(ExpressionPart(-row[hi - 1], hi), x) == -(row[hi - 1] * x[hi - 1])
  {
  }

  lemma EvalSnoc(ts: seq<ExpressionPart>, t: ExpressionPart, x: seq<int>)
    ensures Eval(ts + [t], x) == Eval(ts, x) + TermValue(t, x)
  {
    assert (ts + [t])[..|ts|] == ts;
  }

  /** The free terms evaluate to minus the corresponding part of the row's
      left-hand side. */
  lemma {:induction false} EvalFreeTerms(row: seq<int>, x: seq<int>, lo: nat, hi: nat)
    requires lo <= hi <= |x| && |row| == |x| + 1
    ensures Eval(FreeTerms(row, lo, hi), x) == -PartialDot(row, x, lo, hi)
    decreases hi - lo
  {
    if lo < hi {
      var v := hi - 1;
      EvalFreeTerms(row, x, lo, v);
      var m := row[v] * x[v];
      assert PartialDot(row, x, lo, hi) == PartialDot(row, x, lo, v) + m;
      if row[v] == 0 {
        assert m == 0;
      } else {
        var t := ExpressionPart(-row[v], hi);
        var init := FreeTerms(row, lo, v);
        assert FreeTerms(row, lo, hi) == init + [t];
        EvalSnoc(init, t, x);
        FreeTermValue(row, x, hi);
        assert Eval(init + [t], x) == Eval(init, x) - m;
      }
    }
  }

  /** A pivot row's solution record holds at `x` exactly when `x` satisfies
      the row's equation. */
  lemma RowSolutionHolds(row: seq<int>, n: nat, x: seq<int>)
    requires |row| == n + 1 && Lead(row, n) < n && |x| == n
    ensures Holds(RowSolution(row, n), x) <==> Residual(row, x) == 0
  {
    var p := Lead(row, n);
    var terms := FreeTerms(row, p + 1, n);
    var s := RowSolution(row, n);
    EvalFreeTerms(row, x, p + 1, n);
    LeadZeros(row, n);
    DotZero(row, x, 0, p);
    DotSplit(row, x, 0, p + 1, n);
    if row[n] != 0 {
      var e := terms + [ExpressionPart(row[n], 0)];
      assert e[..|e| - 1] == terms;
      assert Eval(s.expression, x) == Eval(terms, x) + row[n];
    }
    assert Eval(s.expression, x) == -PartialDot(row, x, p + 1, n) + row[n];
  }

  /** A row with no nonzero coefficient holds everywhere when its right-hand
      side is zero, and nowhere otherwise. */
  lemma ZeroRowResidual(row: seq<int>, n: nat, x: seq<int>)
    requires |row| == n + 1 && Lead(row, n) == n && |x| == n
    ensures Residual(row, x) == -row[n]
  {
    LeadZeros(row, n);
    DotZero(row, x, 0, n);
  }

  lemma AllHoldSnoc(sols: seq<LinearSolution>, s: LinearSolution, x: seq<int>)
    ensures AllHold(sols + [s], x) <==> AllHold(sols, x) && Holds(s, x)
  {
    var all := sols + [s];
    if AllHold(all, x) {
      forall m | 0 <= m < |sols| ensures Holds(sols[m], x) {
        assert all[m] == sols[m];
      }
      assert all[|sols|] == s;
    }
  }

  /** `x` satisfies the equations of rows `0 .. k-1`, row by row. */
  predicate HoldsBefore(g: seq<seq<int>>, x: seq<int>, k: nat)
    requires k <= |g| && forall i :: 0 <= i < k ==> |g[i]| == |x| + 1
  {
    k == 0 || (HoldsBefore(g, x, k - 1) && Residual(g[k - 1], x) == 0)
  }

  /** Row by row is every row at once. */
  lemma {:induction false} HoldsBeforeAll(g: seq<seq<int>>, x: seq<int>, k: nat)
    requires k <= |g| && forall i :: 0 <= i < k ==> |g[i]| == |x| + 1
    ensures HoldsBefore(g, x, k) <==> forall i :: 0 <= i < k ==> Residual(g[i], x) == 0
  {
    if k > 0 {
      HoldsBeforeAll(g, x, k - 1);
    }
  }

  /** The solutions of rows `0 .. k` are those of rows `0 .. k-1` and the one
      of row `k`, if it has a nonzero coefficient. */
  lemma PivotSolutionsStep(g: seq<seq<int>>, n: nat, x: seq<int>, k: nat)
    requires Rect(g, n + 1) && |x| == n && 0 < k <= |g| && !Inconsistent(g[k - 1], n)
    ensures AllHold(PivotSolutionsUpTo(g, n, k), x)
        <==> AllHold(PivotSolutionsUpTo(g, n, k - 1), x) && Residual(g[k - 1], x) == 0
  {
    var last := g[k - 1];
    if Lead(last, n) < n {
      RowSolutionHolds(last, n, x);
      AllHoldSnoc(PivotSolutionsUpTo(g, n, k - 1), RowSolution(last, n), x);
    } else {
      ZeroRowResidual(last, n, x);
      assert Residual(last, x) == 0;
      assert PivotSolutionsUpTo(g, n, k) == PivotSolutionsUpTo(g, n, k - 1);
    }
  }

  /** With no row among `0 .. k-1` reading `0 == nonzero`, `x` satisfies
      those rows' equations exactly when it satisfies their solutions. */
  lemma {:induction false} PivotSolutionsHold(g: seq<seq<int>>, n: nat, x: seq<int>, k: nat)
    requires Rect(g, n + 1) && |x| == n && k <= |g| && ConsistentUpTo(g, n, k)
    ensures HoldsBefore(g, x, k) <==> AllHold(PivotSolutionsUpTo(g, n, k), x)
  {
    if k > 0 {
      PivotSolutionsHold(g, n, x, k - 1);
      PivotSolutionsStep(g, n, x, k);
    }
  }

  /** `GetSolutions` describes the solution set exactly. When some row reads
      `0 == nonzero`, the result is empty and the system has no solution.
      Otherwise a vector solves the system if and only if it satisfies every
      returned solution record. */
  lemma ExtractSolutionsCorrect(g: seq<seq<int>>, n: nat, x: seq<int>)
    requires Rect(g, n + 1) && |x| == n
    ensures HasInconsistentRow(g, n) ==> ExtractSolutions(g, n) == [] && !Solves(g, x)
    ensures !HasInconsistentRow(g, n) ==> (Solves(g, x) <==> AllHold(ExtractSolutions(g, n), x))
  {
    if HasInconsistentRow(g, n) {
      var i :| 0 <= i < |g| && Inconsistent(g[i], n);
      ZeroRowResidual(g[i], n, x);
    } else {
      ConsistentWitness(g, n);
      PivotSolutionsHold(g, n, x, |g|);
      HoldsBeforeAll(g, x, |g|);
    }
  }
}
