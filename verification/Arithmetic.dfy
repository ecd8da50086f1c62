/** What several parts of the kernel need of the natural numbers. */
module Arithmetic {

  function Min(a: nat, b: nat): nat { if a < b then a else b }

  function Max(a: nat, b: nat): nat { if a < b then b else a }

  function Pow(b: nat, e: nat): nat {
    if e == 0 then 1 else b * Pow(b, e - 1)
  }

  lemma MulMonotone(b: nat, x: nat, y: nat)
    requires x <= y
    ensures b * x <= b * y
  {
  }

  /** Quotient and remainder are determined by what they are. */
  lemma DivisionUnique(n: nat, b: nat, q: nat, r: nat)
    requires b > 0 && r < b && n == b * q + r
    ensures n / b == q && n % b == r
  {
    var p := n / b;
    assert n == b * p + n % b;
    assert b * (p + 1) == b * p + b && b * (q + 1) == b * q + b;
    if p < q {
      MulMonotone(b, p + 1, q);
    } else if q < p {
      MulMonotone(b, q + 1, p);
    }
  }
}
