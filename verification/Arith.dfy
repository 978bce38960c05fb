/** Unsigned 64-bit arithmetic, and the little nonlinear algebra its split forms need. */
module Arith {

  const WORD: nat := 0x1_0000_0000_0000_0000

  /** Unsigned 64-bit arithmetic keeps what fits. */
  function U64(x: int): (r: nat)
    ensures r < WORD
    ensures 0 <= x < WORD ==> r == x
    ensures 0 <= x ==> r <= x
  {
    x % WORD
  }

  function Mul(a: nat, b: nat): nat {
    a * b
  }

  function Div(a: nat, b: nat): nat
    requires b > 0
  {
    a / b
  }

  lemma Distribute(a: nat, b: nat, c: nat)
    ensures (a + b) * c == a * c + b * c
  {
  }

  lemma MulAtMost(a: nat, b: nat, c: nat)
    requires a <= b
    ensures a * c <= b * c
  {
    Distribute(a, b - a, c);
    assert (b - a) * c >= 0;
  }

  lemma MulBelow(a: nat, b: nat, c: nat)
    requires a < b && c > 0
    ensures a * c < b * c
  {
    MulAtMost(a + 1, b, c);
    Distribute(a, 1, c);
  }

  lemma Divided(n: nat, d: nat)
    requires d > 0
    ensures n == n / d * d + n % d && n % d < d
  {
  }

  lemma Quotient(n: nat, d: nat, q: nat)
    requires d > 0 && q * d <= n < q * d + d
    ensures n / d == q
  {
    Divided(n, d);
    var p := n / d;
    Distribute(p, 1, d);
    Distribute(q, 1, d);
    if p < q {
      MulAtMost(p + 1, q, d);
    } else if p > q {
      MulAtMost(q + 1, p, d);
    }
  }

  /** Adding up in 64 bits what is known to fit. */
  lemma SumFits(whole: nat, part: nat, unit: nat, exact: nat)
    requires unit > 0 && part < WORD && whole + part / unit == exact < WORD
    ensures U64(U64(whole) + U64(part) / unit) == exact
  {
    assert part / unit >= 0;
  }
}
