/** Exact-integer helpers shared by the container and the solver: C++ division
    semantics (truncation toward zero), divisibility, and the two gcd functions
    the solver relies on (`std::gcd` and the recursive member `gcd`). */
module IntMath {

  function Abs(x: int): (r: nat)
    ensures r == x || r == -x
  {
    if x < 0 then -x else x
  }

  /** `d` divides `a`: `a` is an integer multiple of `d`. */
  predicate Divides(d: int, a: int)
  {
    if d == 0 then a == 0 else a % d == 0
  }

  // ---------------------------------------------------------------------------
  // Basic nonlinear facts, proved once so that the rest of the project does not
  // ask the solver to rediscover them.
  // ---------------------------------------------------------------------------

  lemma MulMonotone(m: int, b: int)
    requires m >= 1 && b > 0
    ensures m * b >= b
  {
    assert m * b == (m - 1) * b + b;
    assert (m - 1) * b >= 0;
  }

  lemma MulStrict(k: int, x: int, y: int)
    requires k > 0 && 0 <= x < y
    ensures 0 <= k * x < k * y
  {
    assert k * y - k * x == k * (y - x);
    MulMonotone(y - x, k);
    assert k * (y - x) == (y - x) * k;
  }

  lemma AbsMul(a: int, b: int)
    ensures Abs(a * b) == Abs(a) * Abs(b)
  {
    if a < 0 && b < 0 {
      assert a * b == (-a) * (-b);
    } else if a < 0 {
      assert -(a * b) == (-a) * b;
    } else if b < 0 {
      assert -(a * b) == a * (-b);
    }
  }

  lemma MulCancel(k: int, x: int, y: int)
    requires k != 0 && k * x == k * y
    ensures x == y
  {
    assert k * (x - y) == 0;
    if x - y != 0 {
      AbsMul(k, x - y);
      MulMonotone(Abs(x - y), Abs(k));
      assert false;
    }
  }

  lemma MulZero(k: int, x: int)
    requires k != 0 && k * x == 0
    ensures x == 0
  {
    MulCancel(k, x, 0);
  }

  lemma PositiveFactor(x: int, q: int)
    requires x > 0 && x * q > 0
    ensures q >= 1
  {
    if q <= 0 {
      assert false;
    }
  }

  /** Euclidean division is determined by its defining equation. */
  lemma EuclidUnique(a: int, d: int, q: int, r: int)
    requires d != 0 && a == d * q + r && 0 <= r < Abs(d)
    ensures a / d == q && a % d == r
  {
    var q', r' := a / d, a % d;
    assert a == d * q' + r' && 0 <= r' < Abs(d);
    assert d * (q - q') == r' - r;
    if q != q' {
      AbsMul(d, q - q');
      MulMonotone(Abs(q - q'), Abs(d));
      assert false;
    }
  }

  lemma DividesWitness(d: int, a: int, q: int)
    requires a == d * q
    ensures Divides(d, a)
  {
    if d != 0 {
      EuclidUnique(a, d, q, 0);
    }
  }

  lemma DividesQuotient(d: int, a: int)
    requires d != 0 && Divides(d, a)
    ensures a == d * (a / d)
  {
  }

  /** Any integer combination of two multiples of `d` is a multiple of `d`. */
  lemma DividesCombination(d: int, x: int, y: int, m: int, n: int)
    requires Divides(d, x) && Divides(d, y)
    ensures Divides(d, m * x + n * y)
  {
    if d == 0 {
      assert m * x + n * y == 0;
    } else {
      var qx, qy := x / d, y / d;
      DividesQuotient(d, x);
      DividesQuotient(d, y);
      assert m * x == d * (m * qx) by {
        assert m * (d * qx) == d * (m * qx);
      }
      assert n * y == d * (n * qy) by {
        assert n * (d * qy) == d * (n * qy);
      }
      DividesWitness(d, m * x + n * y, m * qx + n * qy);
    }
  }

  lemma DividesAbs(d: int, a: int)
    ensures Divides(d, a) <==> Divides(Abs(d), Abs(a))
  {
    if Divides(d, a) {
      if d != 0 {
        DividesQuotient(d, a);
        var q := a / d;
        AbsMul(d, q);
        DividesWitness(Abs(d), Abs(a), Abs(q));
      }
    }
    if Divides(Abs(d), Abs(a)) {
      if d != 0 {
        DividesQuotient(Abs(d), Abs(a));
        var q := Abs(a) / Abs(d);
        if (a < 0) == (d < 0) {
          DividesWitness(d, a, q);
        } else {
          DividesWitness(d, a, -q);
        }
      }
    }
  }

  lemma DividesScaled(k: int, d: int, a: int)
    requires Divides(d, a)
    ensures Divides(k * d, k * a)
  {
    if d == 0 {
      DividesWitness(k * d, k * a, 0);
    } else {
      DividesQuotient(d, a);
      var q := a / d;
      assert k * a == (k * d) * q by {
        assert k * (d * q) == (k * d) * q;
      }
      DividesWitness(k * d, k * a, q);
    }
  }

  lemma DividesUnscaled(k: int, d: int, a: int)
    requires k != 0 && Divides(k * d, k * a)
    ensures Divides(d, a)
  {
    if k * d == 0 {
      MulZero(k, d);
      MulZero(k, a);
    } else {
      DividesQuotient(k * d, k * a);
      var q := (k * a) / (k * d);
      assert k * a == k * (d * q) by {
        assert (k * d) * q == k * (d * q);
      }
      MulCancel(k, a, d * q);
      DividesWitness(d, a, q);
    }
  }

  lemma DividesTransitive(a: int, b: int, c: int)
    requires Divides(a, b) && Divides(b, c)
    ensures Divides(a, c)
  {
    if b == 0 {
      assert c == 0;
      DividesWitness(a, c, 0);
    } else if a != 0 {
      DividesQuotient(a, b);
      DividesQuotient(b, c);
      var q1, q2 := b / a, c / b;
      assert c == a * (q1 * q2) by {
        assert (a * q1) * q2 == a * (q1 * q2);
      }
      DividesWitness(a, c, q1 * q2);
    }
  }

  /** The sign of a product of two nonzero integers. */
  lemma MulSign(a: int, b: int)
    requires a != 0 && b != 0
    ensures a * b != 0
    ensures (a * b < 0) <==> ((a < 0) != (b < 0))
  {
    AbsMul(a, b);
    MulMonotone(Abs(a), Abs(b));
    if a < 0 && b < 0 {
      assert a * b == (-a) * (-b);
    } else if a < 0 {
      assert a * b == -((-a) * b);
    } else if b < 0 {
      assert a * b == -(a * (-b));
    }
  }

  /** Two nonnegative numbers that divide each other are equal. */
  lemma DividesAntisymmetric(x: nat, y: nat)
    requires Divides(x, y) && Divides(y, x)
    ensures x == y
  {
    if x != 0 && y != 0 {
      DividesQuotient(x, y);
      DividesQuotient(y, x);
      var q1, q2 := y / x, x / y;
      PositiveFactor(x, q1);
      PositiveFactor(y, q2);
      MulMonotone(q1, x);
      MulMonotone(q2, y);
      assert x * q1 == q1 * x && y * q2 == q2 * y;
    }
  }

  // ---------------------------------------------------------------------------
  // C++ integer division and remainder: both truncate toward zero.
  // ---------------------------------------------------------------------------

  /** `a / b` as C++ computes it: the quotient is rounded toward zero. */
  function TruncDiv(a: int, b: int): (q: int)
    requires b != 0
    ensures Abs(q) == Abs(a) / Abs(b)
    ensures q != 0 ==> ((q < 0) <==> ((a < 0) != (b < 0)))
  {
    var m := Abs(a) / Abs(b);
    assert m >= 0;
    if (a < 0) == (b < 0) then m else -m
  }

  /** `a % b` as C++ computes it: the remainder takes the sign of `a`. */
  function TruncMod(a: int, b: int): (r: int)
    requires b != 0
    ensures Abs(r) < Abs(b)
    ensures Abs(r) == Abs(a) % Abs(b)
    ensures r != 0 ==> ((r < 0) <==> (a < 0))
  {
    if a < 0 then -(Abs(a) % Abs(b)) else Abs(a) % Abs(b)
  }

  /** The two truncating operations satisfy C++'s identity `a == (a/b)*b + a%b`. */
  lemma {:induction false} TruncDivMod(a: int, b: int)
    requires b != 0
    ensures a == b * TruncDiv(a, b) + TruncMod(a, b)
  {
    var q, r := Abs(a) / Abs(b), Abs(a) % Abs(b);
    assert Abs(a) == Abs(b) * q + r;
    if a >= 0 && b > 0 {
    } else if a >= 0 && b < 0 {
      assert b * (-q) == Abs(b) * q;
    } else if a < 0 && b > 0 {
      assert a == -(Abs(b) * q) - r;
      assert b * (-q) == -(Abs(b) * q);
    } else {
      assert a == -(Abs(b) * q) - r;
      assert b * q == -(Abs(b) * q);
    }
  }

  /** Truncating division by a divisor is exact and agrees with the quotient. */
  lemma {:induction false} TruncDivExact(a: int, b: int, q: int)
    requires b != 0 && a == b * q
    ensures TruncDiv(a, b) == q
  {
    AbsMul(b, q);
    EuclidUnique(Abs(a), Abs(b), Abs(q), 0);
    if q != 0 {
      assert (q < 0) <==> ((a < 0) != (b < 0)) by {
        if b > 0 && q > 0 { MulMonotone(q, b); }
        if b > 0 && q < 0 { assert a == -(b * (-q)); MulMonotone(-q, b); }
        if b < 0 && q > 0 { assert a == -((-b) * q); MulMonotone(q, -b); }
        if b < 0 && q < 0 { assert a == (-b) * (-q); MulMonotone(-q, -b); }
      }
    }
  }

  // ---------------------------------------------------------------------------
  // std::gcd: the greatest common divisor of the absolute values.
  // ---------------------------------------------------------------------------

  /** Euclid's algorithm on natural numbers. */
  function NatGcd(a: nat, b: nat): nat
    decreases b
  {
    if b == 0 then a else NatGcd(b, a % b)
  }

  /** `std::gcd(a, b)`: nonnegative, and 0 only when both arguments are 0. */
  function AbsGcd(a: int, b: int): (g: nat)
    ensures g == 0 <==> a == 0 && b == 0
  {
    NatGcdZero(Abs(a), Abs(b));
    NatGcd(Abs(a), Abs(b))
  }

  lemma {:induction false} NatGcdZero(a: nat, b: nat)
    ensures NatGcd(a, b) == 0 <==> a == 0 && b == 0
    decreases b
  {
    if b != 0 {
      NatGcdZero(b, a % b);
    }
  }

  lemma {:induction false} NatGcdDivides(a: nat, b: nat)
    ensures Divides(NatGcd(a, b), a) && Divides(NatGcd(a, b), b)
    decreases b
  {
    if b == 0 {
      DividesWitness(a, a, 1);
      DividesWitness(a, 0, 0);
    } else {
      NatGcdDivides(b, a % b);
      var g := NatGcd(a, b);
      assert a == (a / b) * b + 1 * (a % b);
      DividesCombination(g, b, a % b, a / b, 1);
    }
  }

  lemma {:induction false} NatGcdGreatest(a: nat, b: nat, d: int)
    requires Divides(d, a) && Divides(d, b)
    ensures Divides(d, NatGcd(a, b))
    decreases b
  {
    if b != 0 {
      assert a % b == 1 * a + (-(a / b)) * b;
      DividesCombination(d, a, b, 1, -(a / b));
      NatGcdGreatest(b, a % b, d);
    }
  }

  lemma {:induction false} NatGcdScaled(k: nat, a: nat, b: nat)
    ensures NatGcd(k * a, k * b) == k * NatGcd(a, b)
    decreases b
  {
    if b != 0 && k != 0 {
      var q, r := a / b, a % b;
      MulStrict(k, r, b);
      assert k * a == (k * b) * q + k * r by {
        assert a == b * q + r;
        assert k * (b * q + r) == (k * b) * q + k * r;
      }
      EuclidUnique(k * a, k * b, q, k * r);
      NatGcdScaled(k, b, r);
    }
  }

  /** `std::gcd` divides both arguments. */
  lemma AbsGcdDivides(a: int, b: int)
    ensures Divides(AbsGcd(a, b), a) && Divides(AbsGcd(a, b), b)
  {
    NatGcdDivides(Abs(a), Abs(b));
    var g := AbsGcd(a, b);
    DividesAbs(g, a);
    DividesAbs(g, b);
  }

  /** Every common divisor of `a` and `b` divides `std::gcd(a, b)`. */
  lemma AbsGcdGreatest(a: int, b: int, d: int)
    requires Divides(d, a) && Divides(d, b)
    ensures Divides(d, AbsGcd(a, b))
  {
    DividesAbs(d, a);
    DividesAbs(d, b);
    NatGcdGreatest(Abs(a), Abs(b), Abs(d));
    DividesAbs(d, AbsGcd(a, b));
  }

  /** Scaling both arguments by `k` scales `std::gcd` by `|k|`. */
  lemma AbsGcdScaled(k: int, a: int, b: int)
    ensures AbsGcd(k * a, k * b) == Abs(k) * AbsGcd(a, b)
  {
    AbsMul(k, a);
    AbsMul(k, b);
    NatGcdScaled(Abs(k), Abs(a), Abs(b));
  }

  lemma AbsGcdZeroRight(a: int)
    ensures AbsGcd(a, 0) == Abs(a)
  {
  }

  // ---------------------------------------------------------------------------
  // The recursive member `gcd` of the solver class: Euclid with C++'s `%`.
  // ---------------------------------------------------------------------------

  /** `gcd(a, b)`: `a` when `b == 0`, otherwise `gcd(b, a % b)` with truncating `%`.
      The result can be negative (for example `gcd(-4, 0) == -4`). */
  function Gcd(a: int, b: int): int
    decreases Abs(b)
  {
    if b == 0 then a else Gcd(b, TruncMod(a, b))
  }

  /** The member `gcd` divides both of its arguments. */
  lemma {:induction false} GcdDivides(a: int, b: int)
    ensures Divides(Gcd(a, b), a) && Divides(Gcd(a, b), b)
    decreases Abs(b)
  {
    if b == 0 {
      DividesWitness(a, a, 1);
      DividesWitness(a, 0, 0);
    } else {
      GcdDivides(b, TruncMod(a, b));
      TruncDivMod(a, b);
      DividesCombination(Gcd(a, b), b, TruncMod(a, b), TruncDiv(a, b), 1);
      assert TruncDiv(a, b) * b + 1 * TruncMod(a, b) == a;
    }
  }

  /** Every common divisor of the arguments divides the member `gcd`. */
  lemma {:induction false} GcdGreatest(a: int, b: int, d: int)
    requires Divides(d, a) && Divides(d, b)
    ensures Divides(d, Gcd(a, b))
    decreases Abs(b)
  {
    if b != 0 {
      TruncDivMod(a, b);
      assert TruncMod(a, b) == 1 * a + (-TruncDiv(a, b)) * b;
      DividesCombination(d, a, b, 1, -TruncDiv(a, b));
      GcdGreatest(b, TruncMod(a, b), d);
    }
  }

  /** The member `gcd` agrees with `std::gcd` up to sign. */
  lemma {:induction false} GcdAbs(a: int, b: int)
    ensures Abs(Gcd(a, b)) == AbsGcd(a, b)
    decreases Abs(b)
  {
    if b != 0 {
      GcdAbs(b, TruncMod(a, b));
    }
  }
}
