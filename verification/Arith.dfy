/** Nonlinear facts shared by the arithmetic proofs, each small enough for the solver. */
module Arith {

  lemma MulMono(m: int, a: int, b: int)
    requires 0 <= m && a <= b
    ensures m * a <= m * b
  {
  }

  lemma MulSub(m: int, a: int, b: int)
    ensures m * (a - b) == m * a - m * b
  {
  }

  /** Quotient and remainder are determined by their defining equation. */
  lemma DivModUnique(n: int, m: int, q: int, r: int)
    requires m > 0 && n == m * q + r && 0 <= r < m
    ensures n / m == q && n % m == r
  {
    var q', r' := n / m, n % m;
    MulSub(m, q', q);
    if q' > q {
      MulMono(m, 1, q' - q);
      assert false;
    } else if q' < q {
      MulMono(m, q' - q, -1);
      assert false;
    }
  }

  lemma DivDiv(n: int, a: int, b: int)
    requires a > 0 && b > 0
    ensures n / a / b == n / (a * b)
  {
    var q := n / a;
    var r := n % a;
    var t := q / b;
    var u := q % b;
    MulMono(a, 1, b);
    assert a * (b * t + u) == (a * b) * t + a * u;
    MulMono(a, u, b - 1);
    assert a * (b - 1) == a * b - a;
    DivModUnique(n, a * b, t, a * u + r);
  }

  lemma ModMultiple(n: int, m: int, k: int)
    requires m > 0
    ensures (n + m * k) % m == n % m
  {
    assert m * (n / m + k) == m * (n / m) + m * k;
    DivModUnique(n + m * k, m, n / m + k, n % m);
  }

  lemma SmallMod(n: int, m: int)
    requires 0 <= n < m
    ensures n / m == 0 && n % m == n
  {
    DivModUnique(n, m, 0, n);
  }

  /** 2 to the power k. */
  function Pow2(k: nat): (p: int)
    ensures p >= 1
  {
    if k == 0 then 1 else 2 * Pow2(k - 1)
  }

  lemma Doubled(p: int, m: int)
    ensures 2 * p * m == 2 * (p * m)
  {
  }

  lemma {:induction false} Pow2Mono(a: nat, b: nat)
    requires a <= b
    ensures Pow2(a) <= Pow2(b)
  {
    if a < b {
      Pow2Mono(a, b - 1);
    }
  }

  lemma {:induction false} Pow2Add(a: nat, b: nat)
    ensures Pow2(a) * Pow2(b) == Pow2(a + b)
  {
    if a > 0 {
      Pow2Add(a - 1, b);
      Doubled(Pow2(a - 1), Pow2(b));
    }
  }
}
