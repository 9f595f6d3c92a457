/** Bitwise and, and bitwise or, on numbers. */
module Bitwise {
  import opened Arith

  function And(a: nat, b: nat): (r: nat)
    ensures r <= a && r <= b
  {
    if a == 0 then 0 else 2 * And(a / 2, b / 2) + if a % 2 == 1 && b % 2 == 1 then 1 else 0
  }

  /** Bit k of a number. */
  function BitAt(n: nat, k: nat): nat {
    if k == 0 then n % 2 else BitAt(n / 2, k - 1)
  }

  /** Each bit of the result is set when it is set on both sides. */
  lemma {:induction false} AndBits(a: nat, b: nat, k: nat)
    ensures BitAt(And(a, b), k) == 1 <==> BitAt(a, k) == 1 && BitAt(b, k) == 1
  {
    if a == 0 {
      ZeroBits(k);
    } else {
      AndStep(a, b);
      if k > 0 {
        AndBits(a / 2, b / 2, k - 1);
      }
    }
  }

  lemma AndStep(a: nat, b: nat)
    ensures And(a, b) / 2 == And(a / 2, b / 2) && (And(a, b) % 2 == 1 <==> a % 2 == 1 && b % 2 == 1)
  {
  }

  lemma {:induction false} ZeroBits(k: nat)
    ensures BitAt(0, k) == 0
  {
    if k > 0 {
      ZeroBits(k - 1);
    }
  }

  lemma {:induction false} AndFull(a: nat, k: nat)
    requires a < Pow2(k)
    ensures And(a, Pow2(k) - 1) == a && And(Pow2(k) - 1, a) == a
  {
    if k > 0 && a > 0 {
      AndFull(a / 2, k - 1);
      assert (Pow2(k) - 1) / 2 == Pow2(k - 1) - 1;
    } else {
      AndZero(Pow2(k) - 1);
    }
  }

  lemma {:induction false} AndZero(a: nat)
    ensures And(a, 0) == 0
  {
    if a > 0 {
      AndZero(a / 2);
    }
  }

  lemma {:induction false} AndSelf(a: nat)
    ensures And(a, a) == a
  {
    if a > 0 {
      AndSelf(a / 2);
    }
  }

  lemma AndOnes(a: nat)
    requires a < 256
    ensures And(a, 255) == a && And(255, a) == a
  {
    assert Pow2(8) == 256;
    AndFull(a, 8);
  }

  lemma AndEven(a: nat, b: nat)
    ensures And(a, 2 * b) == 2 * And(a / 2, b)
  {
    AndStep(a, 2 * b);
    assert 2 * b / 2 == b && 2 * b % 2 == 0;
  }

  /** Multiplication by a power of two, one doubling at a time. */
  function Shifted(m: nat, k: nat): nat {
    if k == 0 then m else 2 * Shifted(m, k - 1)
  }

  lemma {:induction false} ShiftedIs(m: nat, k: nat)
    ensures Shifted(m, k) == Pow2(k) * m
  {
    if k > 0 {
      ShiftedIs(m, k - 1);
      Doubled(Pow2(k - 1), m);
    }
  }

  /** Shifting one side up leaves its low bits clear. */
  lemma {:induction false} AndShift(a: nat, m: nat, k: nat)
    ensures a / Pow2(k) >= 0 && And(a, Shifted(m, k)) == Shifted(And(a / Pow2(k), m), k)
  {
    if k > 0 {
      AndShift(a / 2, m, k - 1);
      DivDiv(a, 2, Pow2(k - 1));
      AndEven(a, Shifted(m, k - 1));
    }
  }

  /** A number meets a block of ones above it in no bit exactly when it lies below the block. */
  lemma AndBlock(x: nat, k: nat, w: nat)
    requires x / Pow2(k) < Pow2(w)
    ensures And(x, Shifted(Pow2(w) - 1, k)) == 0 <==> x < Pow2(k)
  {
    var q := x / Pow2(k);
    AndShift(x, Pow2(w) - 1, k);
    AndFull(q, w);
    ShiftedIs(q, k);
    if x < Pow2(k) {
      SmallMod(x, Pow2(k));
    } else {
      Quotient(x, Pow2(k));
    }
  }

  lemma Quotient(x: nat, p: nat)
    requires 0 < p <= x
    ensures x / p >= 1 && p * (x / p) >= p
  {
    DivAtLeast(x, p);
    MulMono(p, 1, x / p);
  }

  lemma DivAtLeast(x: nat, p: nat)
    requires 0 < p <= x
    ensures x / p >= 1
  {
    if x / p <= 0 {
      MulMono(p, x / p, 0);
    }
  }

  /** Bitwise or. */
  function Or(a: nat, b: nat): nat
    decreases a + b
  {
    if a == 0 then b else if b == 0 then a
    else 2 * Or(a / 2, b / 2) + if a % 2 == 1 || b % 2 == 1 then 1 else 0
  }

  /** Or with a bit below all the others adds it. */
  lemma {:induction false} OrBelow(q: nat, k: nat)
    ensures Or(Shifted(q, k + 1), Pow2(k)) == Shifted(q, k + 1) + Pow2(k)
  {
    if q == 0 {
      ShiftedZero(k + 1);
    } else {
      ShiftedPositive(q, k + 1);
      if k > 0 {
        OrBelow(q, k - 1);
      } else {
        assert Or(q, 0) == q;
      }
    }
  }

  lemma {:induction false} ShiftedZero(k: nat)
    ensures Shifted(0, k) == 0
  {
    if k > 0 {
      ShiftedZero(k - 1);
    }
  }

  lemma {:induction false} ShiftedPositive(q: nat, k: nat)
    requires q > 0
    ensures Shifted(q, k) > 0
  {
    if k > 0 {
      ShiftedPositive(q, k - 1);
    }
  }

  /** Or with a number that fits below the other's bits is a sum. */
  lemma {:induction false} OrLow(q: nat, x: nat, k: nat)
    requires x < Pow2(k)
    ensures Or(Shifted(q, k), x) == Shifted(q, k) + x
  {
    if k > 0 {
      OrLow(q, x / 2, k - 1);
      OrHalf(Shifted(q, k - 1), x);
    }
  }

  lemma OrHalf(y: nat, x: nat)
    ensures Or(2 * y, x) == 2 * Or(y, x / 2) + x % 2
  {
    if y > 0 && x > 0 {
      assert 2 * y / 2 == y && 2 * y % 2 == 0;
    }
  }

  /** Two numbers side by side. */
  lemma {:induction false} BitJoin(a: nat, b: nat, n: nat, k: nat)
    requires b < Pow2(n)
    ensures BitAt(Shifted(a, n) + b, k) == if k < n then BitAt(b, k) else BitAt(a, k - n)
  {
    if n > 0 {
      assert (Shifted(a, n) + b) / 2 == Shifted(a, n - 1) + b / 2 && (Shifted(a, n) + b) % 2 == b % 2;
      if k > 0 {
        BitJoin(a, b / 2, n - 1, k - 1);
      }
    }
  }

  lemma BitOfBytes(a: nat, b: nat, k: nat)
    requires b < 256
    ensures BitAt(256 * a + b, k) == if k < 8 then BitAt(b, k) else BitAt(a, k - 8)
  {
    assert Pow2(8) == 256;
    ShiftedIs(a, 8);
    BitJoin(a, b, 8, k);
  }
}
