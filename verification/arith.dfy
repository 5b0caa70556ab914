/** Facts about multiplication and Euclidean division on naturals that the solver does not find alone. */
module Arith {

  lemma MulLe(a: nat, b: nat, c: nat)
    requires a <= b
    ensures a * c <= b * c
  {
  }

  lemma MulSucc(n: nat, d: nat)
    ensures (n + 1) * d == n * d + d
  {
  }

  /** The quotient is determined by any decomposition with a remainder below the divisor. */
  lemma DivUnique(n: nat, d: nat, q: nat, r: nat)
    requires d > 0 && r < d && n == q * d + r
    ensures n / d == q
  {
    var q' := n / d;
    if q' > q {
      MulLe(q + 1, q', d);
    } else if q' < q {
      MulLe(q' + 1, q, d);
    }
  }

  lemma DivStep(n: nat, d: nat)
    requires d > 0
    ensures n / d <= (n + 1) / d
  {
    var q := n / d;
    var r := n % d;
    if r + 1 < d {
      DivUnique(n + 1, d, q, r + 1);
    } else {
      DivUnique(n + 1, d, q + 1, 0);
    }
  }

  /** Division by a positive number is monotone. */
  lemma {:induction false} DivLe(a: nat, b: nat, d: nat)
    requires a <= b && d > 0
    ensures a / d <= b / d
    decreases b - a
  {
    if a < b {
      DivStep(a, d);
      DivLe(a + 1, b, d);
    }
  }
}
