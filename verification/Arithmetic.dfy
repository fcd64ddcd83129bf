/** Arithmetic shared by the models: bounded subtraction, and division and
remainder by a variable divisor. */
module Arithmetic {

  function SaturatingSub(a: nat, b: nat): nat {
    if a < b then 0 else a - b
  }

  function Min(a: nat, b: nat): nat {
    if a < b then a else b
  }

  function Max(a: nat, b: nat): nat {
    if a < b then b else a
  }

  lemma DivStep(n: nat, d: nat)
    requires 1 <= d <= n
    ensures (n - d) / d == n / d - 1 && (n - d) % d == n % d
  {
    var q, r := n / d, n % d;
    assert n - d == d * (q - 1) + r;
    QuotientIs(n - d, d, q - 1, r);
  }

  lemma QuotientIs(n: int, d: nat, q: int, r: nat)
    requires n == d * q + r && r < d
    ensures n / d == q && n % d == r
  {
    var q', r' := n / d, n % d;
    assert d * (q' - q) == r - r';
    if q' > q { MulGrows(d, q' - q); }
    if q' < q { MulGrows(d, q - q'); }
  }

  lemma MulGrows(d: nat, k: nat)
    requires 1 <= k
    ensures d <= d * k
  {
  }

  lemma MulMonotone(a: nat, b: nat, d: nat)
    requires a <= b
    ensures a * d <= b * d
  {
    assert b * d == a * d + (b - a) * d;
  }

  lemma SmallMod(n: nat, d: nat)
    requires n < d
    ensures n % d == n
  {
    QuotientIs(n, d, 0, n);
  }

  /** Every residue is met within `d` consecutive numbers. */
  lemma ResidueMet(start: nat, d: nat, p: nat) returns (j: nat)
    requires p < d
    ensures j < d && (start + j) % d == p
  {
    var q, r := start / d, start % d;
    assert start == d * q + r;
    if r <= p {
      j := p - r;
      QuotientIs(start + j, d, q, p);
    } else {
      j := d + p - r;
      assert d * (q + 1) == d * q + d;
      QuotientIs(start + j, d, q + 1, p);
    }
  }
}
