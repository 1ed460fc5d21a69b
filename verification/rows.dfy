/** Row-level specification of the solver: leading entries, the gcd
    normalisation of `SimplifyRow`, the fraction-free cross-multiplication
    step, the solution set of an augmented grid, and the echelon shapes the
    elimination passes produce.

    A row of an augmented grid with `n` unknowns has `n + 1` entries: the
    coefficients in columns `0 .. n-1` and the right-hand side in column `n`. */
module Rows {
  import opened IntMath

  /** Every row of `g` has exactly `w` entries. */
  predicate Rect(g: seq<seq<int>>, w: nat)
  {
    forall i :: 0 <= i < |g| ==> |g[i]| == w
  }

  predicate IsZeroRow(row: seq<int>)
  {
    forall j :: 0 <= j < |row| ==> row[j] == 0
  }

  /** The column of the first nonzero entry among `row[0 .. n-1]`, or `n` when
      there is none. */
  function Lead(row: seq<int>, n: nat): (p: nat)
    requires n <= |row|
    ensures p <= n
    ensures p < n ==> row[p] != 0
  {
    if n == 0 then 0
    else
      var q := Lead(row, n - 1);
      if q < n - 1 then q else if row[n - 1] != 0 then n - 1 else n
  }

  /** Every entry before the leading column is zero. */
  lemma {:induction false} LeadZeros(row: seq<int>, n: nat)
    requires n <= |row|
    ensures forall j :: 0 <= j < Lead(row, n) ==> row[j] == 0
  {
    if n > 0 {
      LeadZeros(row, n - 1);
    }
  }

  lemma LeadUnique(row: seq<int>, n: nat, p: nat)
    requires n <= |row| && p <= n
    requires forall j :: 0 <= j < p ==> row[j] == 0
    requires p < n ==> row[p] != 0
    ensures Lead(row, n) == p
  {
  }

  /** Two rows whose zero entries agree up to and including the first one's
      leading column have the same leading column. */
  lemma LeadSamePattern(a: seq<int>, b: seq<int>, n: nat)
    requires n <= |a| && n <= |b|
    requires forall j :: 0 <= j < n && j <= Lead(a, n) ==> (a[j] == 0 <==> b[j] == 0)
    ensures Lead(b, n) == Lead(a, n)
  {
    LeadZeros(a, n);
    LeadUnique(b, n, Lead(a, n));
  }

  /** The first nonzero entry of the whole row, right-hand side included. */
  function FirstNonzero(row: seq<int>): (p: nat)
    ensures p <= |row| && (p == |row| ==> IsZeroRow(row))
  {
    LeadZeros(row, |row|);
    Lead(row, |row|)
  }

  lemma FirstNonzeroIsLead(row: seq<int>, n: nat)
    requires n <= |row| && Lead(row, n) < n
    ensures FirstNonzero(row) == Lead(row, n)
  {
    LeadZeros(row, n);
    LeadUnique(row, |row|, Lead(row, n));
  }

  lemma ZeroRowLead(row: seq<int>)
    ensures IsZeroRow(row) <==> FirstNonzero(row) == |row|
  {
  }

  // ---------------------------------------------------------------------------
  // SimplifyRow: divide a row by the signed gcd of its entries.
  // ---------------------------------------------------------------------------

  /** `gcd_` after `SimplifyRow`'s scan: `std::gcd` folded over the absolute
      values of the entries, left to right, starting from 0. */
  function RowGcd(row: seq<int>): nat
  {
    PrefixGcd(row, |row|)
  }

  /** `gcd_` after the scan has visited `row[0 .. k-1]`. */
  function PrefixGcd(row: seq<int>, k: nat): nat
    requires k <= |row|
  {
    if k == 0 then 0 else AbsGcd(PrefixGcd(row, k - 1), row[k - 1])
  }

  /** `is_minus` after the scan: the first nonzero entry is negative. */
  predicate LeadNegative(row: seq<int>)
  {
    FirstNonzero(row) < |row| && row[FirstNonzero(row)] < 0
  }

  /** The divisor `SimplifyRow` uses: the row gcd, negated when the first
      nonzero entry is negative. */
  function SignedGcd(row: seq<int>): int
  {
    if LeadNegative(row) then -(RowGcd(row) as int) else RowGcd(row)
  }

  /** The row `SimplifyRow` leaves behind: every nonzero entry divided (with
      C++ truncation) by the signed gcd, unless that divisor is 0 or 1. */
  function Simplified(row: seq<int>): (r: seq<int>)
    ensures |r| == |row|
  {
    var s := SignedGcd(row);
    if s != 1 && s != 0 then Divided(row, s) else row
  }

  /** The second loop of `SimplifyRow`: every nonzero entry divided by `s`
      with C++ truncation, zero entries left alone. */
  function Divided(row: seq<int>, s: int): (r: seq<int>)
    requires s != 0
    ensures |r| == |row|
  {
    DividedUpTo(row, s, |row|)
  }

  /** The row after the second loop of `SimplifyRow` has visited entries
      `0 .. k-1`; entries from `k` on are still untouched. */
  function DividedUpTo(row: seq<int>, s: int, k: nat): (r: seq<int>)
    requires s != 0 && k <= |row|
    ensures |r| == |row|
    decreases k
  {
    if k == 0 then row
    else DividedUpTo(row, s, k - 1)[k - 1 := if row[k - 1] == 0 then 0 else TruncDiv(row[k - 1], s)]
  }

  lemma {:induction false} DividedUpToAt(row: seq<int>, s: int, k: nat, j: nat)
    requires s != 0 && k <= |row| && j < |row|
    ensures DividedUpTo(row, s, k)[j] == if j >= k then row[j] else if row[j] == 0 then 0 else TruncDiv(row[j], s)
    decreases k
  {
    if k > 0 && j != k - 1 {
      DividedUpToAt(row, s, k - 1, j);
    }
  }

  /** Entry `j` of `Divided(row, s)`. */
  lemma DividedAt(row: seq<int>, s: int, j: nat)
    requires s != 0 && j < |row|
    ensures Divided(row, s)[j] == if row[j] == 0 then 0 else TruncDiv(row[j], s)
  {
    DividedUpToAt(row, s, |row|, j);
  }

  /** The entries of `Simplified(row)` one by one. */
  lemma SimplifiedAt(row: seq<int>)
    ensures forall j :: 0 <= j < |row| ==>
      Simplified(row)[j] ==
        if SignedGcd(row) != 1 && SignedGcd(row) != 0 && row[j] != 0
        then TruncDiv(row[j], SignedGcd(row)) else row[j]
  {
    var s := SignedGcd(row);
    if s != 1 && s != 0 {
      forall j | 0 <= j < |row| ensures Divided(row, s)[j] == if row[j] == 0 then 0 else TruncDiv(row[j], s) {
        DividedAt(row, s, j);
      }
    }
  }

  /** A row `SimplifyRow` does not change (see `NormalizedIff`): its signed
      gcd is 0, the row being all zero, or 1. */
  predicate Normalized(row: seq<int>)
  {
    SignedGcd(row) == 0 || SignedGcd(row) == 1
  }

  function Scale(row: seq<int>, k: int): (r: seq<int>)
    ensures |r| == |row|
  {
    seq(|row|, j requires 0 <= j < |row| => k * row[j])
  }

  /** The gcd of a prefix divides every entry of that prefix. */
  lemma {:induction false} PrefixGcdDivides(row: seq<int>, k: nat)
    requires k <= |row|
    ensures forall j :: 0 <= j < k ==> Divides(PrefixGcd(row, k), row[j])
  {
    if k > 0 {
      var g := PrefixGcd(row, k - 1);
      PrefixGcdDivides(row, k - 1);
      AbsGcdDivides(g, row[k - 1]);
      forall j | 0 <= j < k - 1
        ensures Divides(PrefixGcd(row, k), row[j])
      {
        DividesTransitive(PrefixGcd(row, k), g, row[j]);
      }
    }
  }

  /** The row gcd divides every entry. */
  lemma RowGcdDivides(row: seq<int>)
    ensures forall j :: 0 <= j < |row| ==> Divides(RowGcd(row), row[j])
  {
    PrefixGcdDivides(row, |row|);
  }

  /** Every common divisor of a prefix divides the gcd of that prefix. */
  lemma {:induction false} PrefixGcdGreatest(row: seq<int>, k: nat, d: int)
    requires k <= |row|
    requires forall j :: 0 <= j < k ==> Divides(d, row[j])
    ensures Divides(d, PrefixGcd(row, k))
  {
    if k == 0 {
      DividesWitness(d, 0, 0);
    } else {
      PrefixGcdGreatest(row, k - 1, d);
      AbsGcdGreatest(PrefixGcd(row, k - 1), row[k - 1], d);
    }
  }

  /** Every common divisor of the entries divides the row gcd. */
  lemma RowGcdGreatest(row: seq<int>, d: int)
    requires forall j :: 0 <= j < |row| ==> Divides(d, row[j])
    ensures Divides(d, RowGcd(row))
  {
    PrefixGcdGreatest(row, |row|, d);
  }

  /** The gcd of a prefix is 0 exactly when the prefix is all zero. */
  lemma {:induction false} PrefixGcdZero(row: seq<int>, k: nat)
    requires k <= |row|
    ensures PrefixGcd(row, k) == 0 <==> forall j :: 0 <= j < k ==> row[j] == 0
  {
    if k > 0 {
      PrefixGcdZero(row, k - 1);
    }
  }

  /** The row gcd is 0 exactly for an all-zero row. */
  lemma RowGcdZero(row: seq<int>)
    ensures RowGcd(row) == 0 <==> IsZeroRow(row)
  {
    PrefixGcdZero(row, |row|);
  }

  /** Scaling a row by `k` scales the gcd of every prefix by `|k|`. */
  lemma {:induction false} PrefixGcdScaled(row: seq<int>, k: int, m: nat)
    requires m <= |row|
    ensures PrefixGcd(Scale(row, k), m) == Abs(k) * PrefixGcd(row, m)
  {
    if m > 0 {
      var e := row[m - 1];
      PrefixGcdScaled(row, k, m - 1);
      var g := PrefixGcd(row, m - 1);
      calc {
        PrefixGcd(Scale(row, k), m);
        AbsGcd(Abs(k) * g, k * e);
        { AbsMul(k, e); }
        NatGcd(Abs(k) * g, Abs(k) * Abs(e));
        { NatGcdScaled(Abs(k), g, Abs(e)); }
        Abs(k) * NatGcd(g, Abs(e));
      }
    }
  }

  /** Scaling a row by `k` scales its gcd by `|k|`. */
  lemma RowGcdScaled(row: seq<int>, k: int)
    ensures RowGcd(Scale(row, k)) == Abs(k) * RowGcd(row)
  {
    PrefixGcdScaled(row, k, |row|);
  }

  /** Whenever the row is not all zero, the signed gcd is nonzero and divides
      every entry exactly: each entry of the simplified row, multiplied back by
      the divisor, gives the original entry. */
  lemma QuotientEntry(e: int, s: int, g: int)
    requires g > 0 && (s == g || s == -g) && Divides(g, e)
    ensures (if e == 0 then 0 else TruncDiv(e, s)) * s == e
  {
    if e != 0 {
      DividesAbs(g, e);
      DividesAbs(s, e);
      DividesQuotient(s, e);
      TruncDivExact(e, s, e / s);
    }
  }

  lemma SimplifiedQuotient(row: seq<int>)
    requires !IsZeroRow(row)
    ensures SignedGcd(row) != 0
    ensures forall j :: 0 <= j < |row| ==> Simplified(row)[j] * SignedGcd(row) == row[j]
  {
    RowGcdZero(row);
    RowGcdDivides(row);
    SimplifiedAt(row);
    var s := SignedGcd(row);
    var g := RowGcd(row);
    if s != 1 {
      forall j | 0 <= j < |row|
        ensures Simplified(row)[j] * s == row[j]
      {
        QuotientEntry(row[j], s, g);
      }
    }
  }

  lemma PositiveQuotient(q: int, s: int, a: int)
    requires a != 0 && q * s == a && ((a < 0) <==> (s < 0))
    ensures q > 0
  {
    if q == 0 {
      assert false;
    }
    MulSign(q, s);
  }

  lemma SimplifiedZeroPattern(row: seq<int>)
    ensures forall j :: 0 <= j < |row| ==> (Simplified(row)[j] == 0 <==> row[j] == 0)
    ensures FirstNonzero(Simplified(row)) == FirstNonzero(row)
  {
    var r := Simplified(row);
    SimplifiedAt(row);
    if !IsZeroRow(row) {
      SimplifiedQuotient(row);
      var s := SignedGcd(row);
      forall j | 0 <= j < |row|
        ensures r[j] == 0 <==> row[j] == 0
      {
        if r[j] != 0 {
          MulSign(r[j], s);
        }
      }
    }
    LeadSamePattern(row, r, |row|);
  }

  lemma SimplifiedLeadPositive(row: seq<int>)
    requires !IsZeroRow(row)
    ensures Simplified(row)[FirstNonzero(row)] > 0
  {
    SimplifiedQuotient(row);
    ZeroRowLead(row);
    var p := FirstNonzero(row);
    PositiveQuotient(Simplified(row)[p], SignedGcd(row), row[p]);
  }

  lemma SimplifiedCoprime(row: seq<int>)
    requires !IsZeroRow(row)
    ensures RowGcd(Simplified(row)) == 1
  {
    var r := Simplified(row);
    SimplifiedQuotient(row);
    RowGcdZero(row);
    var s := SignedGcd(row);
    assert Scale(r, s) == row by {
      forall j | 0 <= j < |row| ensures Scale(r, s)[j] == row[j] {
        assert s * r[j] == r[j] * s;
      }
    }
    RowGcdScaled(r, s);
    assert Abs(s) == RowGcd(row);
    MulCancel(RowGcd(row), RowGcd(r), 1);
  }

  /** What `SimplifyRow` promises: an all-zero row is left alone; otherwise zero
      entries stay zero and nonzero entries stay nonzero, the first nonzero
      entry becomes positive, and the entries become coprime. */
  lemma SimplifiedSpec(row: seq<int>)
    ensures IsZeroRow(row) ==> Simplified(row) == row
    ensures forall j :: 0 <= j < |row| ==> (Simplified(row)[j] == 0 <==> row[j] == 0)
    ensures FirstNonzero(Simplified(row)) == FirstNonzero(row)
    ensures !IsZeroRow(row) ==> Simplified(row)[FirstNonzero(row)] > 0 && RowGcd(Simplified(row)) == 1
  {
    RowGcdZero(row);
    SimplifiedZeroPattern(row);
    if !IsZeroRow(row) {
      SimplifiedLeadPositive(row);
      SimplifiedCoprime(row);
    }
  }

  /** A row is left unchanged by `SimplifyRow` exactly when it is all zero or
      its first nonzero entry is positive and its entries are coprime. */
  lemma NormalizedIff(row: seq<int>)
    ensures Normalized(row) <==> Simplified(row) == row
    ensures Normalized(row) <==>
      (IsZeroRow(row) || (row[FirstNonzero(row)] > 0 && RowGcd(row) == 1))
  {
    SimplifiedSpec(row);
    RowGcdZero(row);
    ZeroRowLead(row);
  }

  /** `SimplifyRow` is idempotent: its result is normalised, so a second
      call leaves it as it is. */
  lemma SimplifyIdempotent(row: seq<int>)
    ensures Normalized(Simplified(row))
    ensures Simplified(Simplified(row)) == Simplified(row)
  {
    var r := Simplified(row);
    SimplifiedSpec(row);
    NormalizedIff(r);
    ZeroRowLead(row);
    ZeroRowLead(r);
  }

  lemma ScaleZeroPattern(row: seq<int>, k: int)
    requires k != 0
    ensures forall j :: 0 <= j < |row| ==> (Scale(row, k)[j] == 0 <==> row[j] == 0)
    ensures FirstNonzero(Scale(row, k)) == FirstNonzero(row)
  {
    var sr := Scale(row, k);
    forall j | 0 <= j < |row| ensures (sr[j] == 0 <==> row[j] == 0) {
      if row[j] != 0 { MulSign(k, row[j]); }
    }
    LeadSamePattern(row, sr, |row|);
  }

  lemma SignCombine(k: int, g: int, a: int)
    requires k != 0 && a != 0 && g >= 0
    ensures (if k * a < 0 then -(Abs(k) * g) else Abs(k) * g) == k * (if a < 0 then -g else g)
  {
    MulSign(k, a);
    if k < 0 {
      assert Abs(k) * g == -(k * g);
    } else {
      assert Abs(k) * g == k * g;
    }
    assert k * (-g) == -(k * g);
  }

  /** The signed gcd of a row scaled by a nonzero `k` is `k` times the row's. */
  lemma SignedGcdScaled(row: seq<int>, k: int)
    requires k != 0 && !IsZeroRow(row)
    ensures SignedGcd(Scale(row, k)) == k * SignedGcd(row)
  {
    var sr := Scale(row, k);
    var g := RowGcd(row);
    RowGcdScaled(row, k);
    ScaleZeroPattern(row, k);
    var p := FirstNonzero(row);
    ZeroRowLead(row);
    ZeroRowLead(sr);
    assert sr[p] == k * row[p];
    SignCombine(k, g, row[p]);
  }

  lemma QuotientCancel(x: int, y: int, k: int, s: int, e: int)
    requires k != 0 && s != 0 && x * (k * s) == k * e && y * s == e
    ensures x == y
  {
    MulSign(k, s);
    assert (k * s) * y == k * (y * s);
    MulCancel(k * s, x, y);
  }

  /** Scaling a row by any nonzero integer before normalising it gives the
      same normalised row. */
  lemma SimplifyScaleInvariant(row: seq<int>, k: int)
    requires k != 0
    ensures Simplified(Scale(row, k)) == Simplified(row)
  {
    var sr := Scale(row, k);
    if IsZeroRow(row) {
      assert sr == row;
    } else {
      SignedGcdScaled(row, k);
      ScaleZeroPattern(row, k);
      ZeroRowLead(row);
      ZeroRowLead(sr);
      SimplifiedQuotient(row);
      SimplifiedQuotient(sr);
      var s := SignedGcd(row);
      var a, b := Simplified(sr), Simplified(row);
      forall j | 0 <= j < |row| ensures a[j] == b[j] {
        assert sr[j] == k * row[j];
        QuotientCancel(a[j], b[j], k, s, row[j]);
      }
    }
  }

  // ---------------------------------------------------------------------------
  // The cross-multiplication step shared by MakeStepwise and MakeBetterStepwise.
  // ---------------------------------------------------------------------------

  lemma CrossEntries(target: seq<int>, pivot: seq<int>, p: int, t: int)
    requires |target| == |pivot| && (p != 0 || t != 0)
    ensures forall j :: 0 <= j < |target| ==>
      AbsGcd(p, t) * (TruncDiv(target[j] * p, AbsGcd(p, t)) - TruncDiv(pivot[j] * t, AbsGcd(p, t)))
        == p * target[j] - t * pivot[j]
  {
    var g := AbsGcd(p, t);
    AbsGcdDivides(p, t);
    DividesQuotient(g, p);
    DividesQuotient(g, t);
    var pg, tg := p / g, t / g;
    forall j | 0 <= j < |target|
      ensures g * (TruncDiv(target[j] * p, g) - TruncDiv(pivot[j] * t, g)) == p * target[j] - t * pivot[j]
    {
      var e, f := target[j], pivot[j];
      assert e * p == g * (e * pg) by { assert e * (g * pg) == g * (e * pg); }
      assert f * t == g * (f * tg) by { assert f * (g * tg) == g * (f * tg); }
      TruncDivExact(e * p, g, e * pg);
      TruncDivExact(f * t, g, f * tg);
      assert g * (e * pg - f * tg) == g * (e * pg) - g * (f * tg);
    }
  }

  /** The update `elem * p / g - pivotRow[j] * t / g` with `p` the pivot entry,
      `t` the target's entry in the pivot column and `g = std::gcd(p, t)`.
      Every division is exact: `g` times each new entry is the exact
      combination `p * target[j] - t * pivot[j]`. */
  function CrossMultiply(target: seq<int>, pivot: seq<int>, col: nat): (r: seq<int>)
    requires |target| == |pivot| && col < |pivot|
    requires pivot[col] != 0 || target[col] != 0
    ensures |r| == |target|
  {
    var p, t := pivot[col], target[col];
    Combined(target, pivot, p, t, AbsGcd(p, t))
  }

  /** The `ForRow` loop of the step: entry `j` becomes
      `target[j] * p / g - pivot[j] * t / g`, with C++ truncation. */
  function Combined(target: seq<int>, pivot: seq<int>, p: int, t: int, g: int): (r: seq<int>)
    requires |target| == |pivot| && g != 0
    ensures |r| == |target|
  {
    CombinedUpTo(target, pivot, p, t, g, |target|)
  }

  /** The target row after the `ForRow` loop has visited entries `0 .. k-1`;
      entries from `k` on are still untouched. */
  function CombinedUpTo(target: seq<int>, pivot: seq<int>, p: int, t: int, g: int, k: nat): (r: seq<int>)
    requires |target| == |pivot| && g != 0 && k <= |target|
    ensures |r| == |target|
    decreases k
  {
    if k == 0 then target
    else CombinedUpTo(target, pivot, p, t, g, k - 1)[k - 1 := TruncDiv(target[k - 1] * p, g) - TruncDiv(pivot[k - 1] * t, g)]
  }

  lemma {:induction false} CombinedUpToAt(target: seq<int>, pivot: seq<int>, p: int, t: int, g: int, k: nat, j: nat)
    requires |target| == |pivot| && g != 0 && k <= |target| && j < |target|
    ensures CombinedUpTo(target, pivot, p, t, g, k)[j]
      == if j >= k then target[j] else TruncDiv(target[j] * p, g) - TruncDiv(pivot[j] * t, g)
    decreases k
  {
    if k > 0 && j != k - 1 {
      CombinedUpToAt(target, pivot, p, t, g, k - 1, j);
    }
  }

  /** Entry `j` of `Combined(target, pivot, p, t, g)`. */
  lemma CombinedAt(target: seq<int>, pivot: seq<int>, p: int, t: int, g: int, j: nat)
    requires |target| == |pivot| && g != 0 && j < |target|
    ensures Combined(target, pivot, p, t, g)[j] == TruncDiv(target[j] * p, g) - TruncDiv(pivot[j] * t, g)
  {
    CombinedUpToAt(target, pivot, p, t, g, |target|, j);
  }

  /** Every division of the step is exact: `g` times each new entry is the
      exact combination `p * target[j] - t * pivot[j]`. */
  lemma CrossMultiplyExact(target: seq<int>, pivot: seq<int>, col: nat)
    requires |target| == |pivot| && col < |pivot|
    requires pivot[col] != 0 || target[col] != 0
    ensures forall j :: 0 <= j < |target| ==>
      AbsGcd(pivot[col], target[col]) * CrossMultiply(target, pivot, col)[j]
        == pivot[col] * target[j] - target[col] * pivot[j]
  {
    var p, t := pivot[col], target[col];
    CrossEntries(target, pivot, p, t);
    forall j | 0 <= j < |target|
      ensures CrossMultiply(target, pivot, col)[j] == TruncDiv(target[j] * p, AbsGcd(p, t)) - TruncDiv(pivot[j] * t, AbsGcd(p, t))
    {
      CombinedAt(target, pivot, p, t, AbsGcd(p, t), j);
    }
  }

  /** The step zeroes the target's entry in the pivot column, and wherever the
      pivot row has a zero the target keeps its own zero pattern. */
  lemma CrossMultiplyZeroes(target: seq<int>, pivot: seq<int>, col: nat)
    requires |target| == |pivot| && col < |pivot| && pivot[col] != 0
    ensures CrossMultiply(target, pivot, col)[col] == 0
    ensures forall j :: 0 <= j < |target| && pivot[j] == 0 ==>
      (CrossMultiply(target, pivot, col)[j] == 0 <==> target[j] == 0)
  {
    var r := CrossMultiply(target, pivot, col);
    var p, t := pivot[col], target[col];
    var g := AbsGcd(p, t);
    CrossMultiplyExact(target, pivot, col);
    assert g * r[col] == 0;
    MulZero(g, r[col]);
    forall j | 0 <= j < |target| && pivot[j] == 0
      ensures r[j] == 0 <==> target[j] == 0
    {
      assert g * r[j] == p * target[j];
      if target[j] != 0 {
        MulSign(p, target[j]);
      } else {
        MulZero(g, r[j]);
      }
    }
  }

  /** When the target already has a zero in the pivot column and the pivot
      entry is positive, the step returns the target unchanged. */
  lemma CrossMultiplyIdle(target: seq<int>, pivot: seq<int>, col: nat)
    requires |target| == |pivot| && col < |pivot| && pivot[col] > 0 && target[col] == 0
    ensures CrossMultiply(target, pivot, col) == target
  {
    var r := CrossMultiply(target, pivot, col);
    var p := pivot[col];
    CrossMultiplyExact(target, pivot, col);
    forall j | 0 <= j < |target| ensures r[j] == target[j] {
      assert p * r[j] == p * target[j];
      MulCancel(p, r[j], target[j]);
    }
  }

  // ---------------------------------------------------------------------------
  // Solutions of an augmented grid.
  // ---------------------------------------------------------------------------

  /** `sum of row[j] * x[j]` for `lo <= j < hi`. */
  function PartialDot(row: seq<int>, x: seq<int>, lo: nat, hi: nat): int
    requires lo <= hi <= |x| && hi <= |row|
    decreases hi - lo
  {
    if lo == hi then 0 else PartialDot(row, x, lo, hi - 1) + row[hi - 1] * x[hi - 1]
  }

  /** Left-hand side minus right-hand side of the equation `row` at `x`. */
  function Residual(row: seq<int>, x: seq<int>): int
    requires |row| == |x| + 1
  {
    PartialDot(row, x, 0, |x|) - row[|x|]
  }

  /** `x` satisfies every equation of `g`. */
  predicate Solves(g: seq<seq<int>>, x: seq<int>)
  {
    forall i :: 0 <= i < |g| ==> |g[i]| == |x| + 1 && Residual(g[i], x) == 0
  }

  /** The solutions of `g` in `n` unknowns. */
  ghost function SolutionSet(g: seq<seq<int>>, n: nat): iset<seq<int>>
  {
    iset x: seq<int> | |x| == n && Solves(g, x)
  }

  /** `g` and `h` have the same solutions in `n` unknowns. */
  ghost predicate SameSolutions(g: seq<seq<int>>, h: seq<seq<int>>, n: nat)
  {
    SolutionSet(g, n) == SolutionSet(h, n)
  }

  /** Two grids that agree on every candidate solution have the same
      solution set. */
  lemma SameSolutionsIntro(g: seq<seq<int>>, h: seq<seq<int>>, n: nat)
    requires forall x :: |x| == n ==> (Solves(g, x) <==> Solves(h, x))
    ensures SameSolutions(g, h, n)
  {
    forall x ensures x in SolutionSet(g, n) <==> x in SolutionSet(h, n) {
    }
  }

  lemma {:induction false} DotLinear(r: seq<int>, u: seq<int>, v: seq<int>, x: seq<int>, c: int, a: int, b: int, lo: nat, hi: nat)
    requires lo <= hi <= |x| && hi <= |r| && hi <= |u| && hi <= |v|
    requires forall j :: lo <= j < hi ==> c * r[j] == a * u[j] - b * v[j]
    ensures c * PartialDot(r, x, lo, hi) == a * PartialDot(u, x, lo, hi) - b * PartialDot(v, x, lo, hi)
    decreases hi - lo
  {
    if lo < hi {
      DotLinear(r, u, v, x, c, a, b, lo, hi - 1);
      var h := hi - 1;
      assert c * (r[h] * x[h]) == (c * r[h]) * x[h];
      assert (a * u[h] - b * v[h]) * x[h] == a * (u[h] * x[h]) - b * (v[h] * x[h]);
    }
  }

  /** A row that is a linear combination of two others has the combined residual. */
  lemma ResidualLinear(r: seq<int>, u: seq<int>, v: seq<int>, x: seq<int>, c: int, a: int, b: int)
    requires |r| == |u| == |v| == |x| + 1
    requires forall j :: 0 <= j < |r| ==> c * r[j] == a * u[j] - b * v[j]
    ensures c * Residual(r, x) == a * Residual(u, x) - b * Residual(v, x)
  {
    DotLinear(r, u, v, x, c, a, b, 0, |x|);
  }

  /** Replacing row `i` by a nonzero multiple of itself keeps the solutions. */
  lemma ReplaceByScaled(g: seq<seq<int>>, i: nat, r: seq<int>, n: nat, a: int, c: int)
    requires Rect(g, n + 1) && i < |g| && |r| == n + 1 && a != 0 && c != 0
    requires forall j :: 0 <= j < |r| ==> c * r[j] == a * g[i][j]
    ensures SameSolutions(g, g[i := r], n)
  {
    forall x | |x| == n ensures Solves(g, x) <==> Solves(g[i := r], x) {
      assert forall j :: 0 <= j < |r| ==> c * r[j] == a * g[i][j] - 0 * g[i][j];
      ResidualLinear(r, g[i], g[i], x, c, a, 0);
      if Residual(r, x) != 0 { MulSign(c, Residual(r, x)); }
      if Residual(g[i], x) != 0 { MulSign(a, Residual(g[i], x)); }
      assert Residual(r, x) == 0 <==> Residual(g[i], x) == 0;
      var h := g[i := r];
      if Solves(g, x) {
        forall m | 0 <= m < |h| ensures |h[m]| == |x| + 1 && Residual(h[m], x) == 0 {
          if m != i { assert h[m] == g[m]; }
        }
      }
      if Solves(h, x) {
        forall m | 0 <= m < |g| ensures |g[m]| == |x| + 1 && Residual(g[m], x) == 0 {
          assert h[m] == if m == i then r else g[m];
        }
      }
    }
    SameSolutionsIntro(g, g[i := r], n);
  }

  /** Replacing row `i` by `(a * g[i] - b * g[k]) / c` with `a, c` nonzero and
      `k` another row keeps the solutions. */
  lemma ReplaceByCombination(g: seq<seq<int>>, i: nat, k: nat, r: seq<int>, n: nat, a: int, b: int, c: int)
    requires Rect(g, n + 1) && i < |g| && k < |g| && i != k && |r| == n + 1 && a != 0 && c != 0
    requires forall j :: 0 <= j < |r| ==> c * r[j] == a * g[i][j] - b * g[k][j]
    ensures SameSolutions(g, g[i := r], n)
  {
    forall x | |x| == n ensures Solves(g, x) <==> Solves(g[i := r], x) {
      ResidualLinear(r, g[i], g[k], x, c, a, b);
      if Residual(g[k], x) == 0 {
        if Residual(r, x) != 0 { MulSign(c, Residual(r, x)); }
        if Residual(g[i], x) != 0 { MulSign(a, Residual(g[i], x)); }
        assert Residual(r, x) == 0 <==> Residual(g[i], x) == 0;
      }
      var h := g[i := r];
      if Solves(g, x) {
        assert Residual(g[k], x) == 0;
        forall m | 0 <= m < |h| ensures |h[m]| == |x| + 1 && Residual(h[m], x) == 0 {
          if m != i { assert h[m] == g[m]; }
        }
      }
      if Solves(h, x) {
        assert h[k] == g[k];
        forall m | 0 <= m < |g| ensures |g[m]| == |x| + 1 && Residual(g[m], x) == 0 {
          assert h[m] == if m == i then r else g[m];
        }
      }
    }
    SameSolutionsIntro(g, g[i := r], n);
  }

  /** Normalising one row keeps the solutions. */
  lemma SimplifyKeepsSolutions(g: seq<seq<int>>, i: nat, n: nat)
    requires Rect(g, n + 1) && i < |g|
    ensures SameSolutions(g, g[i := Simplified(g[i])], n)
  {
    if IsZeroRow(g[i]) {
      SimplifiedSpec(g[i]);
      assert g[i := Simplified(g[i])] == g;
    } else {
      SimplifiedQuotient(g[i]);
      var s := SignedGcd(g[i]);
      var r := Simplified(g[i]);
      forall j | 0 <= j < |r| ensures s * r[j] == 1 * g[i][j] {
        assert r[j] * s == g[i][j];
      }
      ReplaceByScaled(g, i, r, n, 1, s);
    }
  }

  /** The cross-multiplication step with a nonzero pivot keeps the solutions. */
  lemma CrossMultiplyKeepsSolutions(g: seq<seq<int>>, i: nat, k: nat, col: nat, n: nat)
    requires Rect(g, n + 1) && i < |g| && k < |g| && i != k && col < n + 1 && g[k][col] != 0
    ensures SameSolutions(g, g[i := CrossMultiply(g[i], g[k], col)], n)
  {
    var p, t := g[k][col], g[i][col];
    CrossMultiplyExact(g[i], g[k], col);
    ReplaceByCombination(g, i, k, CrossMultiply(g[i], g[k], col), n, p, t, AbsGcd(p, t));
  }

  /** One elimination step of either pass: row `i` replaced by its
      simplified cross-multiplication against row `k`, whose entry in `col`
      is nonzero. It keeps the solutions. */
  lemma EliminationStepKeepsSolutions(g: seq<seq<int>>, i: nat, k: nat, col: nat, n: nat)
    requires Rect(g, n + 1) && i < |g| && k < |g| && i != k && col < n + 1 && g[k][col] != 0
    ensures SameSolutions(g, g[i := Simplified(CrossMultiply(g[i], g[k], col))], n)
  {
    var mid := g[i := CrossMultiply(g[i], g[k], col)];
    CrossMultiplyKeepsSolutions(g, i, k, col, n);
    SimplifyKeepsSolutions(mid, i, n);
    assert mid[i := Simplified(mid[i])] == g[i := Simplified(CrossMultiply(g[i], g[k], col))];
    SameSolutionsTransitive(g, mid, mid[i := Simplified(mid[i])], n);
  }

  lemma SameSolutionsTransitive(a: seq<seq<int>>, b: seq<seq<int>>, c: seq<seq<int>>, n: nat)
    requires SameSolutions(a, b, n) && SameSolutions(b, c, n)
    ensures SameSolutions(a, c, n)
  {
  }

  /** Exchanging two rows keeps the solutions. */
  lemma SwapKeepsSolutions(g: seq<seq<int>>, i: nat, j: nat, n: nat)
    requires i < |g| && j < |g|
    ensures SameSolutions(g, g[i := g[j]][j := g[i]], n)
  {
    var h := g[i := g[j]][j := g[i]];
    forall x | |x| == n ensures Solves(g, x) <==> Solves(h, x) {
      if Solves(g, x) {
        forall m | 0 <= m < |h| ensures |h[m]| == |x| + 1 && Residual(h[m], x) == 0 {
          var src := if m == j then i else if m == i then j else m;
          assert h[m] == g[src];
        }
      }
      if Solves(h, x) {
        forall m | 0 <= m < |g| ensures |g[m]| == |x| + 1 && Residual(g[m], x) == 0 {
          var src := if m == j then i else if m == i then j else m;
          assert g[m] == h[src];
        }
      }
    }
    SameSolutionsIntro(g, h, n);
  }

  // ---------------------------------------------------------------------------
  // Echelon shapes.
  // ---------------------------------------------------------------------------

  /** Row-echelon form over the `n` coefficient columns: leading columns
      strictly increase down the grid, and rows without a nonzero coefficient
      come after all the others. */
  predicate RowEchelon(g: seq<seq<int>>, n: nat)
  {
    Rect(g, n + 1) &&
    forall i, k {:trigger Lead(g[i], n), Lead(g[k], n)} :: 0 <= i < k < |g| ==>
      Lead(g[i], n) < Lead(g[k], n) || Lead(g[k], n) == n
  }

  /** Reduced row-echelon form: in addition, every pivot column is zero in
      every row but its own. */
  predicate Reduced(g: seq<seq<int>>, n: nat)
  {
    RowEchelon(g, n) &&
    forall i, k {:trigger g[i][Lead(g[k], n)]} :: 0 <= i < |g| && 0 <= k < |g| && i != k && Lead(g[k], n) < n ==>
      g[i][Lead(g[k], n)] == 0
  }

  predicate AllNormalized(g: seq<seq<int>>)
  {
    forall i {:trigger Normalized(g[i])} :: 0 <= i < |g| ==> Normalized(g[i])
  }

  /** Writing row `i` twice leaves only the second write. */
  lemma UpdateTwice(g: seq<seq<int>>, i: nat, a: seq<int>, b: seq<int>)
    requires i < |g|
    ensures g[i := a][i := b] == g[i := b]
  {
  }

  /** Replacing one row of a normalised grid by a normalised row keeps the
      grid normalised. */
  lemma AllNormalizedUpdate(g: seq<seq<int>>, i: nat, row: seq<int>)
    requires AllNormalized(g) && i < |g| && Normalized(row)
    ensures AllNormalized(g[i := row])
  {
    var h := g[i := row];
    forall j | 0 <= j < |h| ensures Normalized(h[j]) {
      if j != i {
        assert h[j] == g[j];
      }
    }
  }

  /** The state `Solve` leaves the grid in. */
  predicate Solved(g: seq<seq<int>>, n: nat)
  {
    Reduced(g, n) && AllNormalized(g)
  }

  /** The `non_zeros` list of `MakeBetterStepwise`: the leading coefficient
      column of each row that has one, in row order. */
  function PivotColumns(g: seq<seq<int>>, n: nat): (cs: seq<nat>)
    requires Rect(g, n + 1)
    ensures |cs| <= |g|
    ensures forall m :: 0 <= m < |cs| ==> cs[m] < n
  {
    PivotColumnsUpTo(g, n, |g|)
  }

  /** `non_zeros` after the rows `0 .. k-1` have been scanned. */
  function PivotColumnsUpTo(g: seq<seq<int>>, n: nat, k: nat): (cs: seq<nat>)
    requires Rect(g, n + 1) && k <= |g|
    ensures |cs| <= k
    ensures forall m :: 0 <= m < |cs| ==> cs[m] < n
  {
    if k == 0 then []
    else
      var p := Lead(g[k - 1], n);
      PivotColumnsUpTo(g, n, k - 1) + (if p < n then [p] else [])
  }

  /** In row-echelon form the first `k` rows with a pivot come first, in
      order, and the scan of those rows lists their leading columns, strictly
      increasing. */
  lemma {:induction false} EchelonPivotsUpTo(g: seq<seq<int>>, n: nat, k: nat)
    requires RowEchelon(g, n) && k <= |g|
    ensures forall m :: 0 <= m < |PivotColumnsUpTo(g, n, k)| ==> PivotColumnsUpTo(g, n, k)[m] == Lead(g[m], n)
    ensures forall m {:trigger Lead(g[m], n)} :: |PivotColumnsUpTo(g, n, k)| <= m < k ==> Lead(g[m], n) == n
    ensures forall a, b :: 0 <= a < b < |PivotColumnsUpTo(g, n, k)| ==>
      PivotColumnsUpTo(g, n, k)[a] < PivotColumnsUpTo(g, n, k)[b]
  {
    if k > 0 {
      EchelonPivotsUpTo(g, n, k - 1);
      var cs := PivotColumnsUpTo(g, n, k - 1);
      var last := k - 1;
      if Lead(g[last], n) < n {
        forall m | 0 <= m < last ensures Lead(g[m], n) < Lead(g[last], n) {
        }
        assert |cs| == last by {
          if |cs| < last {
            assert false;
          }
        }
      }
    }
  }

  /** In row-echelon form the rows with a pivot come first, in order, and
      `non_zeros` lists their leading columns, strictly increasing. */
  lemma EchelonPivots(g: seq<seq<int>>, n: nat)
    requires RowEchelon(g, n)
    ensures forall m :: 0 <= m < |PivotColumns(g, n)| ==> PivotColumns(g, n)[m] == Lead(g[m], n)
    ensures forall m {:trigger Lead(g[m], n)} :: |PivotColumns(g, n)| <= m < |g| ==> Lead(g[m], n) == n
    ensures forall a, b :: 0 <= a < b < |PivotColumns(g, n)| ==> PivotColumns(g, n)[a] < PivotColumns(g, n)[b]
  {
    EchelonPivotsUpTo(g, n, |g|);
  }
}
