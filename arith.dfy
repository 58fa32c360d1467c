/**
 Facts about Euclidean division on non-negative integers that the resize-ratio and
 resampling computations rely on. Multiplication of two variables is outside what
 the solver decides on its own, so each fact is proved here once, in small steps.
 */
module Arith {

  /** Multiplying both sides of an inequality by the same non-negative factor. */
  lemma MulMonotone(a: int, b: int, c: int)
    requires a <= b && 0 <= c
    ensures a * c <= b * c
  {
    assert b * c - a * c == (b - a) * c;
  }

  /** The quotient `a / b` is the largest `q` with `q * b <= a`. */
  lemma DivBounds(a: int, b: int)
    requires 0 < b
    ensures (a / b) * b <= a < (a / b + 1) * b
  {
    assert a == (a / b) * b + a % b;
  }

  /** `a / b < n` exactly when `a < n * b`. */
  lemma DivLess(a: int, b: int, n: int)
    requires 0 < b
    ensures a / b < n <==> a < n * b
  {
    var q := a / b;
    DivBounds(a, b);
    if q < n {
      MulMonotone(q + 1, n, b);
    } else {
      MulMonotone(n, q, b);
    }
  }

  /**
   `a * b`, counted as `b` additions of `a`. Unfolding one step, `Mul(a, b + 1) ==
   Mul(a, b) + a`, stays within linear arithmetic, so facts stated with `Mul` are
   proved without the solver's reasoning about products.
   */
  function Mul(a: nat, b: nat): nat {
    if b == 0 then 0 else Mul(a, b - 1) + a
  }

  lemma {:induction false} MulIsProduct(a: nat, b: nat)
    ensures Mul(a, b) == a * b
  {
    if b > 0 {
      MulIsProduct(a, b - 1);
      assert a * b == a * (b - 1) + a;
    }
  }

  lemma MulCommutes(a: nat, b: nat)
    ensures Mul(a, b) == Mul(b, a)
  {
    MulIsProduct(a, b);
    MulIsProduct(b, a);
  }

  /** A strictly larger count adds at least one more `a`. */
  lemma {:induction false} MulMore(a: nat, m: nat, n: nat)
    requires m < n
    ensures Mul(a, m) + a <= Mul(a, n)
  {
    if m < n - 1 {
      MulMore(a, m, n - 1);
    }
  }

  /** Doubling the addend doubles the product. */
  lemma {:induction false} MulDouble(a: nat, n: nat)
    ensures Mul(2 * a, n) == 2 * Mul(a, n)
  {
    if n > 0 {
      MulDouble(a, n - 1);
    }
  }

  /** How many times `b` can be taken from `a`, one subtraction at a time. */
  function Count(a: nat, b: nat): nat
    requires 0 < b
    decreases a
  {
    if a < b then 0 else 1 + Count(a - b, b)
  }

  lemma {:induction false} CountBounds(a: nat, b: nat)
    requires 0 < b
    ensures Mul(b, Count(a, b)) <= a < Mul(b, Count(a, b)) + b
    decreases a
  {
    if a >= b {
      CountBounds(a - b, b);
    }
  }

  /** The floor of `a / b`: the largest `q` with `b * q <= a`. */
  function Quotient(a: nat, b: nat): (q: nat)
    requires 0 < b
    ensures Mul(b, q) <= a < Mul(b, q) + b
  {
    CountBounds(a, b);
    Count(a, b)
  }

  /** `Quotient` is Euclidean division. */
  lemma QuotientIsDiv(a: nat, b: nat)
    requires 0 < b
    ensures Quotient(a, b) == a / b
  {
    var q := Quotient(a, b);
    MulIsProduct(b, q);
    DivLess(a, b, q + 1);
    DivLess(a, b, q);
  }
}
