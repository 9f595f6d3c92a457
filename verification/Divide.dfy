/** 64-bit division on a 32-bit machine: sw/zlib/udiv.c and sw/zlib/umod.c. */
module Divide {
  import opened Arith
  import opened Bitwise

  const W32: nat := 0x1_0000_0000
  const W64: nat := 0x1_0000_0000_0000_0000
  const Min: int := -0x8000_0000_0000_0000

  // ---------------------------------------------------------------------------------------------
  // Bit reversal

  function Bit(v: nat, i: nat): nat {
    v / Pow2(i) % 2
  }

  /** The low n bits of v in the opposite order. */
  function Reversed(v: nat, n: nat): nat {
    if n == 0 then 0 else 2 * Reversed(v, n - 1) + Bit(v, n - 1)
  }

  lemma {:induction false} ReversedFits(v: nat, n: nat)
    ensures Reversed(v, n) < Pow2(n)
  {
    if n > 0 {
      ReversedFits(v, n - 1);
    }
  }

  lemma Pow2Values()
    ensures Pow2(16) == 0x1_0000 && Pow2(32) == W32 && Pow2(64) == W64
  {
    assert Pow2(8) == 256;
    Pow2Add(8, 8);
    Pow2Add(16, 16);
    Pow2Add(32, 32);
  }

  method ZipBitrev(a: nat) returns (r: nat)
    requires a < W32
    ensures r == Reversed(a, 32)
  {
    var b := a;
    r := 0;
    for i := 0 to 32
      invariant b == a / Pow2(i) && r == Reversed(a, i)
    {
      ReverseStep(a, i);
      r := 2 * r % W32 + b % 2;
      b := b / 2;
    }
  }

  lemma ReverseStep(a: nat, i: nat)
    requires i < 32
    ensures 2 * Reversed(a, i) % W32 + a / Pow2(i) % 2 == Reversed(a, i + 1) && a / Pow2(i) / 2 == a / Pow2(i + 1)
  {
    ReversedFits(a, i);
    Pow2Values();
    Pow2Mono(i + 1, 32);
    SmallMod(2 * Reversed(a, i), W32);
    DivDiv(a, Pow2(i), 2);
  }

  /** Between two powers of two. */
  predicate TopBit(v: nat, k: nat) {
    Pow2(k) <= v < Pow2(k + 1)
  }

  lemma TopBitSet(v: nat, k: nat, i: nat)
    requires TopBit(v, k) && k <= i
    ensures Bit(v, i) == if i == k then 1 else 0
  {
    if i == k {
      DivModUnique(v, Pow2(k), 1, v - Pow2(k));
    } else {
      Pow2Mono(k + 1, i);
      SmallMod(v, Pow2(i));
    }
  }

  /** The top bit of v is the lowest one set in its reversal. */
  lemma {:induction false} ReversedTop(v: nat, k: nat, n: nat)
    requires TopBit(v, k) && k < n
    ensures Reversed(v, n) == Shifted(2 * Reversed(v, k) + 1, n - 1 - k)
  {
    TopBitSet(v, k, n - 1);
    if n - 1 > k {
      ReversedTop(v, k, n - 1);
    }
  }

  // ---------------------------------------------------------------------------------------------
  // Leading zeros

  /** An odd number shifted up by t is a multiple of 2 to the n exactly when n <= t. */
  lemma {:induction false} ShiftedMod(u: nat, t: nat, n: nat)
    ensures n <= t ==> Shifted(2 * u + 1, t) % Pow2(n) == 0 && Shifted(2 * u + 1, t) / Pow2(n) == Shifted(2 * u + 1, t - n)
    ensures n > t ==> Shifted(2 * u + 1, t) % Pow2(n) != 0
  {
    var x := Shifted(2 * u + 1, t);
    if n > 0 && t > 0 {
      var y := Shifted(2 * u + 1, t - 1);
      ShiftedMod(u, t - 1, n - 1);
      TwiceMod(y, Pow2(n - 1));
    } else if n > 0 {
      OddMod(u, Pow2(n - 1));
    }
  }

  lemma TwiceMod(y: nat, p: nat)
    requires p > 0
    ensures 2 * y % (2 * p) == 2 * (y % p) && 2 * y / (2 * p) == y / p
  {
    var q, r := y / p, y % p;
    Doubled(p, q);
    DivModUnique(2 * y, 2 * p, q, 2 * r);
  }

  lemma OddMod(u: nat, p: nat)
    requires p > 0
    ensures (2 * u + 1) % (2 * p) != 0
  {
    var q, r := (2 * u + 1) / (2 * p), (2 * u + 1) % (2 * p);
    Doubled(p, q);
    Odd(u, p * q, r);
  }

  lemma Odd(u: int, z: int, r: int)
    requires 2 * u + 1 == 2 * z + r
    ensures r != 0
  {
  }

  /** One question of the search: if the low n bits are all clear, count them and drop them. */
  lemma Halve(u: nat, t: nat, n: nat, p: nat)
    requires t < 2 * n && p == Pow2(n)
    ensures var x := Shifted(2 * u + 1, t);
            if x % p == 0 then n <= t && x / p == Shifted(2 * u + 1, t - n) else t < n
  {
    ShiftedMod(u, t, n);
  }

  /** One question of the search: are the low n bits all clear?  Then count them and drop them. */
  method Ask(v: nat, n: nat, p: nat, cnt: nat, ghost u: nat, ghost t: nat) returns (v': nat, cnt': nat)
    requires p == Pow2(n) && (v == 0 || (t < 2 * n && v == Shifted(2 * u + 1, t)))
    ensures v == 0 ==> v' == 0 && cnt' == cnt + n
    ensures v != 0 ==> cnt <= cnt' <= cnt + t < cnt' + n && v' != 0 && v' == Shifted(2 * u + 1, t - (cnt' - cnt))
  {
    v', cnt' := v, cnt;
    if v != 0 {
      Halve(u, t, n, p);
    } else {
      SmallMod(0, p);
    }
    if v % p == 0 {
      v', cnt' := v / p, cnt + n;
      if v != 0 {
        ShiftedPositive(2 * u + 1, t - n);
      }
    }
  }

  /** The five questions of the search. */
  method TrailingZeros(v: nat, ghost u: nat, ghost t: nat) returns (cnt: nat)
    requires v == 0 || (t < 32 && v == Shifted(2 * u + 1, t))
    ensures cnt == if v == 0 then 31 else t
  {
    Pow2Values();
    assert Pow2(8) == 0x100 && Pow2(4) == 0x10 && Pow2(2) == 4 && Pow2(1) == 2;
    var hv;
    hv, cnt := Ask(v, 16, 0x1_0000, 0, u, t);
    hv, cnt := Ask(hv, 8, 0x100, cnt, u, if v == 0 then 0 else t - cnt);
    hv, cnt := Ask(hv, 4, 0x10, cnt, u, if v == 0 then 0 else t - cnt);
    hv, cnt := Ask(hv, 2, 4, cnt, u, if v == 0 then 0 else t - cnt);
    hv, cnt := Ask(hv, 1, 2, cnt, u, if v == 0 then 0 else t - cnt);
  }

  lemma {:induction false} FindTop(x: nat, n: nat) returns (k: nat)
    requires 0 < x < Pow2(n)
    ensures k < n && TopBit(x, k)
  {
    if x < Pow2(n - 1) {
      k := FindTop(x, n - 1);
    } else {
      k := n - 1;
    }
  }

  lemma HighTop(v: nat, k: nat)
    requires TopBit(v / W32, k)
    ensures TopBit(v, k + 32)
  {
    Pow2Values();
    Pow2Add(32, k);
    Pow2Add(32, k + 1);
    MulMono(W32, Pow2(k), v / W32);
    MulMono(W32, v / W32, Pow2(k + 1) - 1);
    MulSub(W32, Pow2(k + 1), 1);
  }

  /** The number of leading zeros; 63 for zero. */
  method Cltz(v: nat) returns (cnt: nat)
    requires v < W64
    ensures v > 0 ==> cnt < 64 && TopBit(v, 63 - cnt)
    ensures v == 0 ==> cnt == 63
  {
    var hv := v / W32;
    cnt := 0;
    if hv == 0 {
      cnt := cnt + 32;
      hv := v % W32;
    }
    var more := LeadingInHalf(hv);
    if cnt == 0 {
      HighTop(v, 31 - more);
    }
    cnt := cnt + more;
  }

  /** Reverse the half word and search from below. */
  method LeadingInHalf(hv: nat) returns (cnt: nat)
    requires hv < W32
    ensures if hv == 0 then cnt == 31 else cnt < 32 && TopBit(hv, 31 - cnt)
  {
    ghost var u: nat, t: nat := 0, 0;
    if hv > 0 {
      Pow2Values();
      ghost var k := FindTop(hv, 32);
      ReversedTop(hv, k, 32);
      ShiftedPositive(2 * Reversed(hv, k) + 1, 31 - k);
      u, t := Reversed(hv, k), 31 - k;
    } else {
      ReversedZero(32);
    }
    var rv := ZipBitrev(hv);
    cnt := TrailingZeros(rv, u, t);
  }

  lemma {:induction false} ReversedZero(n: nat)
    ensures Reversed(0, n) == 0
  {
    if n > 0 {
      ReversedZero(n - 1);
      SmallMod(0, Pow2(n - 1));
    }
  }

  // ---------------------------------------------------------------------------------------------
  // Division

  /** Scaling both sides leaves the quotient alone. */
  lemma Scaled(a: nat, b: nat, p: nat)
    requires b > 0 && p > 0
    ensures p * b > 0 && (p * a) / (p * b) == a / b
  {
    var q, r := a / b, a % b;
    MulMono(p, 1, b);
    assert p * (b * q + r) == p * b * q + p * r by {
      Distribute(p, b, q, r);
    }
    MulMono(p, r, b - 1);
    MulSub(p, b, 1);
    DivModUnique(p * a, p * b, q, p * r);
  }

  lemma Distribute(p: int, b: int, q: int, r: int)
    ensures p * (b * q + r) == p * b * q + p * r
  {
  }

  /** The state of the shift-and-subtract loop with j bits still to come: what has been subtracted and
      what is left make up the dividend. */
  ghost predicate Dividing(n: nat, d: nat, a: nat, b: nat, m: nat, r: nat, q: nat, j: nat) {
    && n == r * d + a && a < d * Pow2(j) && r == Shifted(q, j)
    && (if j == 0 then m == 0 else m == Pow2(j - 1) && b == d * Pow2(j - 1))
  }

  lemma DivideStep(n: nat, d: nat, a: nat, b: nat, m: nat, r: nat, q: nat, j: nat)
    requires Dividing(n, d, a, b, m, r, q, j) && j > 0 && d > 0
    ensures if a >= b then Dividing(n, d, a - b, b / 2, m / 2, Or(r, m), 2 * q + 1, j - 1)
            else Dividing(n, d, a, b / 2, m / 2, r, 2 * q, j - 1)
  {
    var p := Pow2(j - 1);
    Doubled(p, d);
    assert d * Pow2(j) == 2 * b by {
      Commute(d, p);
    }
    ShiftedTwice(q, j - 1);
    if a >= b {
      OrBelow(q, j - 1);
      ShiftedOdd(q, j - 1);
      AddTimes(r, m, d);
      Commute(d, p);
    }
    if j > 1 {
      HalfProduct(d, Pow2(j - 2));
    }
  }

  lemma Commute(d: int, p: int)
    ensures d * (2 * p) == 2 * (d * p) && d * p == p * d
  {
  }

  lemma AddTimes(r: int, m: int, d: int)
    ensures (r + m) * d == r * d + m * d
  {
  }

  lemma HalfProduct(d: nat, p: nat)
    ensures d * (2 * p) / 2 == d * p
  {
    assert d * (2 * p) == 2 * (d * p);
  }

  lemma {:induction false} ShiftedTwice(q: nat, k: nat)
    ensures Shifted(2 * q, k) == Shifted(q, k + 1)
  {
    if k > 0 {
      ShiftedTwice(q, k - 1);
    }
  }

  lemma {:induction false} ShiftedOdd(q: nat, k: nat)
    ensures Shifted(2 * q + 1, k) == Shifted(q, k + 1) + Pow2(k)
  {
    if k > 0 {
      ShiftedOdd(q, k - 1);
    }
  }

  /** Shifting up by no more than the leading zeros loses nothing. */
  lemma ShiftFits(v: nat, c: nat, s: nat)
    requires 0 < v && c < 64 && TopBit(v, 63 - c) && s <= c
    ensures v * Pow2(s) < W64
  {
    ShiftFills(v, c);
    Pow2Mono(s, c);
    MulMono(v, Pow2(s), Pow2(c));
  }

  /** Shifting up by all of them sets the top bit. */
  lemma ShiftFills(v: nat, c: nat)
    requires 0 < v && c < 64 && TopBit(v, 63 - c)
    ensures W64 <= 2 * (v * Pow2(c)) && v * Pow2(c) < W64
  {
    Pow2Values();
    Pow2Add(c, 64 - c);
    Pow2Add(c, 63 - c);
    Between(Pow2(c), Pow2(63 - c), Pow2(64 - c), v);
  }

  lemma Between(p: nat, lo: nat, hi: nat, v: nat)
    requires p > 0 && lo <= v < hi
    ensures p * lo <= v * p < p * hi
  {
    Commute(v, p);
    MulMono(p, lo, v);
    MulMono(p, v, hi - 1);
    MulSub(p, hi, 1);
  }

  lemma LeadingOrder(a: nat, la: nat, b: nat, lb: nat)
    requires 0 < b <= a && la < 64 && lb < 64 && TopBit(a, 63 - la) && TopBit(b, 63 - lb)
    ensures la <= lb
  {
    if la > lb {
      Pow2Mono(64 - la, 63 - lb);
    }
  }

  /** The quotient of numbers that are both multiples of 2 to the 32 but for the dividend's low half. */
  lemma HighHalves(a: nat, b: nat)
    requires b > 0 && b % W32 == 0
    ensures b / W32 > 0 && a / W32 / (b / W32) == a / b
  {
    DivDiv(a, W32, b / W32);
  }

  /** Where the loop starts. */
  lemma DivideStarts(a: nat, b: nat, la: nat, lb: nat)
    requires 0 < b <= a < W64 && la <= lb < 64 && TopBit(a, 63 - la) && TopBit(b, 63 - lb)
    ensures var n, d, j := a * Pow2(la), b * Pow2(la), lb - la + 1;
            && n < W64 && b * Pow2(lb) < W64 && d > 0 && n / d == a / b
            && Dividing(n, d, n, b * Pow2(lb), Pow2(lb - la), 0, 0, j)
  {
    ShiftFills(a, la);
    ShiftFills(b, lb);
    Scaled(a, b, Pow2(la));
    var d, k := b * Pow2(la), lb - la;
    Pow2Add(la, k);
    Associate(b, Pow2(la), Pow2(k));
    Commute(d, Pow2(k));
    ShiftedZero(k + 1);
  }

  lemma Associate(b: int, p: int, q: int)
    ensures b * p * q == b * (p * q)
  {
  }

  /** Shift and subtract, one quotient bit per turn. */
  method LongDivide(n: nat, b0: nat, m0: nat, ghost d: nat, ghost j0: nat) returns (r: nat, ghost turns: nat)
    requires d > 0 && Dividing(n, d, n, b0, m0, 0, 0, j0)
    ensures r == n / d && turns == j0
  {
    var a, b, m := n, b0, m0;
    r := 0;
    ghost var q, j := 0, j0;
    turns := 0;
    while m > 0
      invariant 0 <= q && 0 <= j && turns + j == j0 && Dividing(n, d, a, b, m, r, q, j)
      decreases j
    {
      DivideStep(n, d, a, b, m, r, q, j);
      q := if a >= b then 2 * q + 1 else 2 * q;
      if a >= b {
        r := Or(r, m);
        a := a - b;
      }
      m := m / 2;
      b := b / 2;
      j := j - 1;
      turns := turns + 1;
    }
    Quotients(n, d, r, a);
  }

  lemma Quotients(n: nat, d: nat, r: nat, a: nat)
    requires d > 0 && n == r * d + a && a < d * Pow2(0)
    ensures r == n / d
  {
    Commute(d, r);
    DivModUnique(n, d, r, a);
  }

  /** The position of the highest bit. */
  function Msb(v: nat): nat {
    if v <= 1 then 0 else 1 + Msb(v / 2)
  }

  lemma {:induction false} MsbIs(v: nat, k: nat)
    requires TopBit(v, k)
    ensures Msb(v) == k
  {
    if k > 0 {
      MsbIs(v / 2, k - 1);
    }
  }

  /** The inputs that reach the loop: wide ones whose divisor, lined up with the dividend, has bits below the
      upper half. */
  predicate Loops(a: nat, b: nat) {
    a >= b && a >= W32 && (Msb(a) - Msb(b) >= 32 || Msb(a) > 63 || b * Pow2(63 - Msb(a)) % W32 != 0)
  }

  /** The quotient, on all four paths.  The loop runs exactly for those inputs, and takes one turn for every bit
      by which the dividend is the longer, and one more. */
  method Udivdi3(a: nat, b: nat) returns (r: nat, ghost turns: int)
    requires a < W64 && 0 < b < W64
    ensures r == a / b
    ensures turns == if Loops(a, b) then Msb(a) - Msb(b) + 1 else 0
  {
    turns := 0;
    if a < b {
      SmallMod(a, b);
      return 0, 0;
    }
    if b / W32 == 0 && a / W32 == 0 {
      return a % W32 / (b % W32), 0;
    }
    var la := Cltz(a);
    var lb := Cltz(b);
    MsbIs(a, 63 - la);
    MsbIs(b, 63 - lb);
    r, turns := Aligned(a, b, la, lb);
  }

  /** The two paths for wide numbers. */
  method Aligned(a: nat, b: nat, la: nat, lb: nat) returns (r: nat, ghost turns: nat)
    requires 0 < b <= a < W64 && la < 64 && lb < 64 && TopBit(a, 63 - la) && TopBit(b, 63 - lb)
    ensures r == a / b && la <= lb && b * Pow2(la) >= 0
    ensures turns == if lb - la < 32 && b * Pow2(la) % W32 == 0 then 0 else lb - la + 1
  {
    LinesUp(a, b, la, lb);
    var n, d, e := a * Pow2(la) % W64, b * Pow2(la) % W64, b * Pow2(lb) % W64;
    r, turns := Lined(n, d, e, Pow2(lb - la), lb - la);
  }

  lemma LinesUp(a: nat, b: nat, la: nat, lb: nat)
    requires 0 < b <= a < W64 && la < 64 && lb < 64 && TopBit(a, 63 - la) && TopBit(b, 63 - lb)
    ensures la <= lb && a * Pow2(la) >= 0 && b * Pow2(la) >= 0 && b * Pow2(lb) >= 0
    ensures var n, d, e := a * Pow2(la) % W64, b * Pow2(la) % W64, b * Pow2(lb) % W64;
            && d == b * Pow2(la) && d > 0 && n / d == a / b && Dividing(n, d, n, e, Pow2(lb - la), 0, 0, lb - la + 1)
  {
    LeadingOrder(a, la, b, lb);
    DivideStarts(a, b, la, lb);
    ShiftFits(b, lb, la);
    NoWrap(a * Pow2(la), b * Pow2(la), b * Pow2(lb));
  }

  lemma NoWrap(x: nat, y: nat, z: nat)
    requires x < W64 && y < W64 && z < W64
    ensures x % W64 == x && y % W64 == y && z % W64 == z
  {
    SmallMod(x, W64);
    SmallMod(y, W64);
    SmallMod(z, W64);
  }

  /** Dividend and divisor are lined up by k bits; the divisor moved up by these is b. */
  method Lined(n: nat, d: nat, b: nat, m: nat, k: nat) returns (r: nat, ghost turns: nat)
    requires d > 0 && Dividing(n, d, n, b, m, 0, 0, k + 1)
    ensures r == n / d && turns == if k < 32 && d % W32 == 0 then 0 else k + 1
  {
    if k < 32 && d % W32 == 0 {
      HighHalves(n, d);
      return n / W32 / (d / W32), 0;
    }
    r, turns := LongDivide(n, b, m, d, k + 1);
  }

  method Umoddi3(a: nat, b: nat) returns (r: nat)
    requires a < W64 && 0 < b < W64
    ensures r == a % b
  {
    var q, _ := Udivdi3(a, b);
    Remainder(a, b);
    r := q * b % W64;
    r := (a - r) % W64;
  }

  lemma Remainder(a: nat, b: nat)
    requires a < W64 && 0 < b < W64
    ensures a / b * b % W64 == a / b * b && (a - a / b * b) % W64 == a % b
  {
    var q := a / b;
    QuotientBelow(a, b);
    MulMono(b, 0, q);
    Commute(b, q);
    Splits(a, q * b, a % b);
  }

  lemma Splits(a: nat, z: nat, r: nat)
    requires a == z + r && a < W64
    ensures z % W64 == z && (a - z) % W64 == r
  {
    SmallMod(z, W64);
    SmallMod(r, W64);
  }

  // ---------------------------------------------------------------------------------------------
  // Signed division

  /** 64-bit two's complement. */
  function Signed(v: int): int {
    var u := v % W64;
    if u < W64 / 2 then u else u - W64
  }

  /** Division that truncates toward zero. */
  function Truncated(a: int, b: int): int
    requires b != 0
  {
    var q := Abs(a) / Abs(b);
    if (a < 0) != (b < 0) then -q else q
  }

  function Abs(x: int): nat {
    if x < 0 then -x else x
  }

  /** Truncating division, but for the one quotient that has no 64-bit value. */
  method Divdi3(a: int, b: int) returns (r: int)
    requires Min <= a < -Min && Min <= b < -Min && b != 0
    ensures r == Truncated(a, b) <==> !(a == Min && b == -1)
    ensures a == Min && b == -1 ==> r == Min
  {
    var s, x, y := false, a, b;
    if a < 0 {
      s, x := true, Signed(-a);
    }
    if b < 0 {
      s, y := !s, Signed(-b);
    }
    Magnitude(a);
    Magnitude(b);
    var q, _ := Udivdi3(x % W64, y % W64);
    QuotientFits(a, b);
    WithSign(q, s);
    r := Signed(q);
    if s {
      r := Signed(-r);
    }
  }

  /** As an unsigned number, a wrapped negation is the magnitude, even of the most negative number. */
  lemma Magnitude(a: int)
    requires Min <= a < -Min
    ensures (if a < 0 then Signed(-a) else a) % W64 == Abs(a)
  {
    SmallMod(Abs(a), W64);
    if Signed(-a) < 0 {
      ModMultiple(Signed(-a), W64, 1);
    }
  }

  lemma WithSign(q: int, s: bool)
    requires 0 <= q <= -Min
    ensures var r := if s then Signed(-Signed(q)) else Signed(q);
            if q < -Min || s then r == (if s then -q else q) else r == Min
  {
    SmallMod(q, W64);
    if q == -Min {
      assert Signed(q) == Min;
    } else if q > 0 {
      DivModUnique(-q, W64, -1, W64 - q);
    }
  }

  lemma QuotientFits(a: int, b: int)
    requires Min <= a < -Min && Min <= b < -Min && b != 0
    ensures Abs(a) / Abs(b) <= -Min && (Abs(a) / Abs(b) == -Min <==> a == Min && Abs(b) == 1)
  {
    var n, d := Abs(a), Abs(b);
    QuotientBelow(n, d);
    if d == 1 {
      DivModUnique(n, 1, n, 0);
    }
  }

  lemma QuotientBelow(n: nat, d: nat)
    requires d > 0
    ensures 0 <= n / d <= n && (d >= 2 ==> 2 * (n / d) <= n)
  {
    var q := n / d;
    if q < 0 {
      MulMono(d, q, -1);
    } else {
      MulMono(q, 1, d);
      Commute(d, q);
      if d >= 2 {
        MulMono(q, 2, d);
      }
    }
  }
}
