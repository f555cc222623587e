/** Facts about products and quotients that the solver needs by name. */
module Arith {
  lemma MulMono(a: nat, b: nat, s: nat)
    requires a <= b
    ensures a * s <= b * s
  {
  }

  lemma MulStep(a: nat, s: nat)
    ensures (a + 1) * s == a * s + s
  {
  }

  lemma MulAssoc(a: nat, b: nat, c: nat)
    ensures a * (b * c) == (a * b) * c
  {
  }

  lemma MulSign(d: int, m: nat)
    ensures 1 <= d ==> m <= d * m
    ensures d <= 0 - 1 ==> d * m <= 0 - m
  {
  }

  lemma DivUnique(n: nat, m: nat, q: nat, r: nat)
    requires n == q * m + r && r < m
    ensures n / m == q && n % m == r
  {
    var d: int := n / m - q;
    assert n == (n / m) * m + n % m;
    assert d * m == r - n % m;
    MulSign(d, m);
  }

  lemma Regroup(a: nat, m: nat, b: nat, d: nat, r: nat)
    ensures (a * m + b) * d + r == a * (d * m) + (b * d + r)
  {
  }

  /** The two remainders of dividing by `d` and then by `m` make up less than `d * m`. */
  lemma RemainderFits(b: nat, m: nat, r: nat, d: nat)
    requires b < m && r < d
    ensures b * d + r < d * m
  {
    MulMono(b + 1, m, d);
    MulStep(b, d);
  }

  lemma DivNonNegative(n: nat, d: nat)
    requires 1 <= d
    ensures 0 <= n / d && n == (n / d) * d + n % d
  {
    MulSign(n / d, d);
  }

  /** Dividing by `d` and then by `m` is dividing by `d * m`, and the two remainders make up the one. */
  lemma DivDiv(n: nat, d: nat, m: nat)
    requires 1 <= d && 1 <= m
    ensures n / (d * m) == n / d / m
    ensures n % (d * m) == (n / d % m) * d + n % d
  {
    DivNonNegative(n, d);
    var q: nat, r: nat := n / d, n % d;
    DivNonNegative(q, m);
    Regroup(q / m, m, q % m, d, r);
    RemainderFits(q % m, m, r, d);
    DivUnique(n, d * m, q / m, (q % m) * d + r);
  }

  function Pow(base: nat, k: nat): (r: nat)
    ensures 1 <= base ==> 1 <= r
  {
    if k == 0 then 1 else base * Pow(base, k - 1)
  }
}
