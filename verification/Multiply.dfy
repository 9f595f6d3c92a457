/** The high half of a 32-bit product, from 16-bit limbs: soft_mpyuhi and soft_mpyshi of
    sw/board/cputest.c. */
module Multiply {
  import opened Arith
  import opened Bitwise

  const W16: nat := 0x1_0000
  const W32: nat := 0x1_0000_0000

  /** Three limbs, the upper one of any size. */
  function Value(hi: nat, mid: nat, lo: nat): nat {
    W32 * hi + W16 * mid + lo
  }

  /** The low i bits of b. */
  function LowBits(b: nat, i: nat): nat {
    b % Pow2(i)
  }

  lemma NextBit(b: nat, i: nat)
    ensures LowBits(b, i + 1) == LowBits(b, i) + Pow2(i) * (b / Pow2(i) % 2)
  {
    var p, q := Pow2(i), b / Pow2(i);
    DivDiv(b, p, 2);
    var r, u, bit := b % p, q / 2, q % 2;
    assert p * (2 * u + bit) == 2 * p * u + p * bit by {
      Spread(p, u, bit);
    }
    MulMono(p, bit, 1);
    MulMono(p, 0, bit);
    DivModUnique(b, 2 * p, u, p * bit + r);
  }

  lemma Spread(p: int, u: int, bit: int)
    ensures p * (2 * u + bit) == 2 * p * u + p * bit
  {
  }

  /** The limbs of a shifted up by i, for i below 16. */
  method Limbs(a: nat, i: nat) returns (sup: nat, shi: nat, slo: nat)
    requires a < W32 && i < 16
    ensures Value(sup, shi, slo) == a * Pow2(i) && slo < W16 && shi < W16 && sup < W16
  {
    var alo, ahi := a % W16, a / W16 % W16;
    LimbsFit(a, alo, ahi, i);
    var x, y := alo * Pow2(i), ahi * Pow2(i);
    slo := x % W32;
    shi := y % W32;
    shi := Or(shi, slo / W16 % W16);
    slo := slo % W16;
    sup := shi / W16 % W16;
    shi := shi % W16;
  }

  /** Nothing overflows, and the or is a sum. */
  lemma LimbsFit(a: nat, alo: nat, ahi: nat, i: nat)
    requires a < W32 && i < 16 && alo == a % W16 && ahi == a / W16 % W16
    ensures var x, y := alo * Pow2(i), ahi * Pow2(i);
            && 0 <= x < W32 && 0 <= y < W32 && x % W32 == x && y % W32 == y
            && Or(y, x / W16 % W16) == y + x / W16
            && Value((y + x / W16) / W16 % W16, (y + x / W16) % W16, x % W16) == a * Pow2(i)
  {
    SmallMod(a / W16, W16);
    assert Pow2(15) == 0x8000;
    Pow2Mono(i, 15);
    Small(alo, Pow2(i));
    Small(ahi, Pow2(i));
    SmallMod(alo * Pow2(i), W32);
    SmallMod(ahi * Pow2(i), W32);
    Joined(ahi, alo, i);
    LimbsValue(a, ahi, alo, Pow2(i));
  }

  lemma LimbsValue(a: nat, ahi: nat, alo: nat, p: nat)
    requires a == W16 * ahi + alo && 0 <= ahi * p <= 0x7fff_8000 && 0 <= alo * p <= 0x7fff_8000
    ensures var z := ahi * p + alo * p / W16; z < W32 && Value(z / W16 % W16, z % W16, alo * p % W16) == a * p
  {
    Parts(a, ahi, alo, p);
    Regroup(ahi * p, alo * p);
  }

  lemma Joined(ahi: nat, alo: nat, i: nat)
    requires ahi < W16 && alo < W16 && 0 < Pow2(i) <= 0x8000
    ensures ahi * Pow2(i) >= 0 && alo * Pow2(i) >= 0
    ensures Or(ahi * Pow2(i), alo * Pow2(i) / W16 % W16) == ahi * Pow2(i) + alo * Pow2(i) / W16
  {
    var p := Pow2(i);
    Small(alo, p);
    Small(ahi, p);
    Carry(alo, p);
    SmallMod(alo * p / W16, W16);
    ShiftedIs(ahi, i);
    Swap(ahi, p);
    OrLow(ahi, alo * p / W16, i);
  }

  lemma Regroup(x: nat, y: nat)
    requires x <= 0x7fff_8000 && y <= 0x7fff_8000
    ensures var z := x + y / W16; z < W32 && Value(z / W16 % W16, z % W16, y % W16) == W16 * x + y
  {
    SmallMod((x + y / W16) / W16, W16);
  }

  lemma Small(x: nat, p: nat)
    requires x < W16 && 0 < p <= 0x8000
    ensures 0 <= x * p <= 0xffff * p <= 0x7fff_8000
  {
    Swap(x, p);
    MulMono(p, x, 0xffff);
    MulMono(p, 0, x);
  }

  /** What is carried out of a shifted limb is below the shift. */
  lemma Carry(x: nat, p: nat)
    requires x < W16 && 0 < p <= 0x8000
    ensures x * p / W16 < p && x * p >= 0
  {
    Small(x, p);
    Below(x * p, p);
  }

  lemma Below(n: nat, p: nat)
    requires n <= 0xffff * p && 0 < p
    ensures n / W16 < p
  {
  }

  lemma Swap(x: int, y: int)
    ensures x * y == y * x
  {
  }

  lemma Parts(a: nat, ahi: nat, alo: nat, p: nat)
    requires a == W16 * ahi + alo
    ensures a * p == W16 * (ahi * p) + alo * p
  {
  }

  lemma Accumulates(a: nat, p: nat, n: nat, s: nat, t: nat)
    requires s == a * n && t == a * p
    ensures s + t == a * (n + p)
  {
  }

  /** One set bit of the low half of b. */
  method AddLow(a: nat, i: nat, hi: nat, mid: nat, lo: nat) returns (hi': nat, mid': nat, lo': nat)
    requires a < W32 && i < 16 && mid < W16 && lo < W16
    ensures mid' < W16 && lo' < W16 && Value(hi', mid', lo') == Value(hi, mid, lo) + a * Pow2(i)
  {
    var sup, shi, slo := Limbs(a, i);
    AddLimbs(hi, mid, lo, sup, shi, slo);
    hi', mid', lo' := hi + sup, mid + shi, lo + slo;
    mid' := mid' + lo' / W16 % W16;
    lo' := lo' % W16;
    hi' := hi' + mid' / W16 % W16;
    mid' := mid' % W16;
  }

  /** Carries between limbs keep the value. */
  lemma AddLimbs(hi: nat, mid: nat, lo: nat, sup: nat, shi: nat, slo: nat)
    requires mid < W16 && lo < W16 && shi < W16 && slo < W16
    ensures var l := lo + slo;
            var m := mid + shi + l / W16 % W16;
            Value(hi + sup + m / W16 % W16, m % W16, l % W16) == Value(hi, mid, lo) + Value(sup, shi, slo)
  {
    var l := lo + slo;
    SmallMod(l / W16, W16);
    var m := mid + shi + l / W16;
    SmallMod(m / W16, W16);
  }

  /** One set bit of the high half: everything a limb further up. */
  method AddHigh(a: nat, i: nat, hi: nat, mid: nat, ghost lo: nat) returns (hi': nat, mid': nat)
    requires a < W32 && 16 <= i < 32 && mid < W16
    ensures mid' < W16 && Value(hi', mid', lo) == Value(hi, mid, lo) + a * Pow2(i)
  {
    var sup, shi, slo := Limbs(a, i - 16);
    SmallMod((mid + slo) / W16, W16);
    hi' := hi + sup * W16;
    hi' := hi' + shi;
    mid' := mid + slo;
    hi' := hi' + mid' / W16 % W16;
    mid' := mid' % W16;
    UpOne(a, i);
    AddUp(hi, mid, lo, sup, shi, slo, a * Pow2(i - 16));
  }

  lemma AddUp(hi: nat, mid: nat, lo: nat, sup: nat, shi: nat, slo: nat, t: nat)
    requires t == Value(sup, shi, slo)
    ensures Value(hi + sup * W16 + shi + (mid + slo) / W16, (mid + slo) % W16, lo) == Value(hi, mid, lo) + W16 * t
  {
  }

  lemma UpOne(a: nat, i: nat)
    requires 16 <= i
    ensures a * Pow2(i) == W16 * (a * Pow2(i - 16))
  {
    assert Pow2(8) == 256;
    Pow2Add(8, 8);
    Pow2Add(16, i - 16);
  }

  /** The high word of the unsigned product.  The upper limb stays within 32 bits at every turn, and only
      grows in between; the others are cut back to 16. */
  method SoftMpyuhi(a: nat, b: nat) returns (hi: nat)
    requires a < W32 && b < W32
    ensures hi == a * b / W32 && hi < W32
  {
    var mid, lo := 0, 0;
    hi := 0;
    Nothing(a, b);
    for i := 0 to 16
      invariant 0 <= mid < W16 && 0 <= lo < W16 && 0 <= hi < W32 && Summed(a, b, i, hi, mid, lo)
    {
      SumStep(a, b, i);
      if b / Pow2(i) % 2 == 1 {
        hi, mid, lo := AddLow(a, i, hi, mid, lo);
      }
      Fits(a, b, i + 1, hi, mid, lo);
    }
    for i := 16 to 32
      invariant 0 <= mid < W16 && 0 <= lo < W16 && 0 <= hi < W32 && Summed(a, b, i, hi, mid, lo)
    {
      SumStep(a, b, i);
      if b / Pow2(i) % 2 == 1 {
        hi, mid := AddHigh(a, i, hi, mid, lo);
      }
      Fits(a, b, i + 1, hi, mid, lo);
    }
    Finish(a, b, hi, mid, lo);
  }

  /** The limbs hold the product with the low i bits of b. */
  predicate Summed(a: nat, b: nat, i: nat, hi: nat, mid: nat, lo: nat) {
    Value(hi, mid, lo) == a * LowBits(b, i)
  }

  /** The upper limb never outgrows its register. */
  lemma Fits(a: nat, b: nat, i: nat, hi: nat, mid: nat, lo: nat)
    requires a < W32 && b < W32 && Summed(a, b, i, hi, mid, lo)
    ensures hi < W32
  {
    var n := LowBits(b, i);
    LowBitsBelow(b, i);
    MulMono(a, n, W32 - 1);
    MulMono(W32 - 1, a, W32 - 1);
    Swap(a, W32 - 1);
    if hi >= W32 {
      MulMono(W32, W32, hi);
    }
  }

  lemma LowBitsBelow(b: nat, i: nat)
    ensures 0 <= LowBits(b, i) <= b
  {
    var q := b / Pow2(i);
    if q < 0 {
      MulMono(Pow2(i), q, -1);
    } else {
      MulMono(Pow2(i), 0, q);
    }
  }

  lemma Nothing(a: nat, b: nat)
    ensures Summed(a, b, 0, 0, 0, 0)
  {
    DivModUnique(b, 1, b, 0);
  }

  lemma SumStep(a: nat, b: nat, i: nat)
    ensures a * LowBits(b, i + 1) == a * LowBits(b, i) + if b / Pow2(i) % 2 == 1 then a * Pow2(i) else 0
  {
    NextBit(b, i);
    if b / Pow2(i) % 2 == 1 {
      Accumulates(a, Pow2(i), LowBits(b, i), a * LowBits(b, i), a * Pow2(i));
    }
  }

  lemma Finish(a: nat, b: nat, hi: nat, mid: nat, lo: nat)
    requires a < W32 && b < W32 && mid < W16 && lo < W16 && Summed(a, b, 32, hi, mid, lo)
    ensures hi == a * b / W32 && hi < W32
  {
    assert Pow2(8) == 256;
    Pow2Add(8, 8);
    Pow2Add(16, 16);
    SmallMod(b, W32);
    DivModUnique(a * b, W32, hi, W16 * mid + lo);
    MulMono(a, b, W32 - 1);
    MulMono(W32 - 1, a, W32 - 1);
    Swap(a, W32 - 1);
    if hi >= W32 {
      MulMono(W32, W32, hi);
    }
  }

  // ---------------------------------------------------------------------------------------------
  // Signed

  /** 32-bit two's complement. */
  function Signed(v: int): int {
    var u := v % W32;
    if u < W32 / 2 then u else u - W32
  }

  function Abs(x: int): nat {
    if x < 0 then -x else x
  }

  /** The high word of the signed product, rounded down, for all operands: also when the product is zero with one
      operand negative, and for the most negative number. */
  method SoftMpyshi(a: int, b: int) returns (r: int)
    requires -0x8000_0000 <= a < 0x8000_0000 && -0x8000_0000 <= b < 0x8000_0000
    ensures r == a * b / W32
  {
    var sgn := (a < 0) != (b < 0);
    var x, y := if a < 0 then -a % W32 else a, if b < 0 then -b % W32 else b;
    SmallMod(Abs(a), W32);
    SmallMod(Abs(b), W32);
    var p := x * y % W32;
    var u := SoftMpyuhi(x, y);
    var v := if sgn then W32 - 1 - u else u;
    if sgn && p == 0 {
      v := (v + 1) % W32;
    }
    Signs(a, b);
    HighWord(a * b, x * y, sgn, u, p);
    r := Signed(v);
  }

  lemma Signs(a: int, b: int)
    requires -0x8000_0000 <= a < 0x8000_0000 && -0x8000_0000 <= b < 0x8000_0000
    ensures a * b == if (a < 0) != (b < 0) then -(Abs(a) * Abs(b)) else Abs(a) * Abs(b)
    ensures 0 <= Abs(a) * Abs(b) <= 0x4000_0000_0000_0000
  {
    var x, y := Abs(a), Abs(b);
    MulMono(x, y, 0x8000_0000);
    MulMono(0x8000_0000, x, 0x8000_0000);
    Swap(x, 0x8000_0000);
    MulMono(x, 0, y);
  }

  lemma HighWord(n: int, m: int, sgn: bool, u: int, p: int)
    requires 0 <= m && n == (if sgn then -m else m) && m <= 0x4000_0000_0000_0000 && u == m / W32 && p == m % W32
    ensures var v := if sgn then W32 - 1 - u else u;
            Signed(if sgn && p == 0 then (v + 1) % W32 else v) == n / W32
  {
    if sgn {
      if p == 0 {
        DivModUnique(n, W32, -u, 0);
        if u == 0 {
          DivModUnique(W32, W32, 1, 0);
        } else {
          SmallMod(W32 - u, W32);
        }
      } else {
        DivModUnique(n, W32, -u - 1, W32 - p);
        SmallMod(W32 - 1 - u, W32);
      }
    } else {
      SmallMod(u, W32);
    }
  }
}
