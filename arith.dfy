/** Facts about nonlinear integer arithmetic that the solver does not find alone. */
module Arith {

  lemma DivDiv(x: nat, a: nat, b: nat)
    requires a > 0 && b > 0
    ensures x / a / b == x / (a * b)
  {
    var r := DivDivRemainder(x, a, b);
    DivUnique(x, a * b, x / a / b, r);
  }

  /** Dividing by `a` and then by `b` leaves a remainder below `a * b`. */
  lemma DivDivRemainder(x: nat, a: nat, b: nat) returns (r: nat)
    requires a > 0 && b > 0
    ensures x == x / a / b * (a * b) + r && r < a * b
  {
    var y := x / a;
    var q := y / b;
    var r1 := x % a;
    var r2 := y % b;
    r := r2 * a + r1;
    assert x == q * (a * b) + r by {
      assert y == q * b + r2;
      assert x == y * a + r1;
      Distrib(q, b, r2, a);
    }
    assert r < a * b by {
      MulLe(r2, b - 1, a);
      assert (b - 1) * a == a * b - a;
    }
  }

  lemma Distrib(q: int, b: int, r: int, a: int)
    ensures (q * b + r) * a == q * (a * b) + r * a
  {
  }

  lemma MulLe(x: nat, y: nat, c: nat)
    requires x <= y
    ensures x * c <= y * c
  {
  }

  lemma DivUnique(x: nat, d: nat, q: nat, r: nat)
    requires d > 0 && r < d && x == q * d + r
    ensures x / d == q
  {
    var q' := x / d;
    var r' := x % d;
    if q' < q {
      MulLe(q' + 1, q, d);
    } else if q' > q {
      MulLe(q + 1, q', d);
    }
  }

  /** A quotient is below `n` exactly when the dividend is below `n` times the divisor. */
  lemma DivLess(x: nat, d: nat, n: nat)
    requires d > 0
    ensures x / d < n <==> x < n * d
  {
    var q := x / d;
    if q < n {
      MulLe(q + 1, n, d);
    } else {
      MulLe(n, q, d);
    }
  }
}
