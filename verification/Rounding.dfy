/** Convergent rounding: sbits and rndbits of sw/host/twoc.cpp. */
module Rounding {
  import opened Arith

  /** A 64-bit long. */
  type Long = n: int | -0x8000_0000_0000_0000 <= n < 0x8000_0000_0000_0000

  /** The low bits of a number, as a signed number of that many bits. */
  function Signed(val: int, bits: nat): int
    requires bits >= 1
  {
    var r := val % Pow2(bits);
    if r >= Pow2(bits - 1) then r - Pow2(bits) else r
  }

  /** sbits, which is to be that.  The machine takes the shift counts modulo 64, so with 64 bits nothing is left. */
  function Sbits(val: int, bits: nat): int {
    if bits % 64 == 0 then 0 else Signed(val, bits % 64)
  }

  /** The 32-bit mask ((1 << n) - 1): the machine takes the shift count modulo 32, and the subtraction wraps. */
  function Masked(s: int, n: nat): int {
    s % Pow2(n % 32)
  }

  function RndBits(val: int, bitsIn: nat, bitsOut: nat): int
    requires 1 <= bitsOut <= bitsIn <= 64
  {
    var s := Sbits(val, bitsIn);
    if bitsIn == bitsOut then s
    else if bitsIn - 1 == bitsOut then OffByHalf(s, Sbits(val / 2, bitsOut))
    else OffByMore(s, Sbits(val / Pow2(bitsIn - bitsOut), bitsOut), bitsIn - bitsOut)
  }

  /** The value cut off at the point, rounded; one bit, or d of them, are cut off s. */
  function OffByHalf(s: int, t: int): int {
    if s % 4 == 3 then t + 1 else t
  }

  function OffByMore(s: int, t: int, d: nat): int
    requires d >= 1
  {
    if s / Pow2(d - 1) % 2 == 0 then t
    else if Masked(s, d - 1) != 0 then t + 1
    else if t % 2 == 1 then t + 1
    else t
  }

  lemma SbitsIs(val: int, bits: nat)
    requires 1 <= bits <= 63
    ensures Sbits(val, bits) == Signed(val, bits)
  {
  }

  /** r is an integer nearest to s / p, and even if two are. */
  predicate Nearest(s: int, p: int, r: int) {
    -p <= 2 * (s - r * p) <= p && (2 * (s - r * p) == p || 2 * (s - r * p) == -p ==> r % 2 == 0)
  }

  /** Cutting low bits off before or after taking the sign is the same. */
  lemma CutSign(val: int, out: nat, d: nat)
    requires out >= 1
    ensures Signed(val / Pow2(d), out) == Signed(val, out + d) / Pow2(d)
  {
    Pow2Add(d, out);
    Pow2Add(d, out - 1);
    CutSigned(val, Pow2(d), Pow2(out), Pow2(out - 1));
  }

  function Wrapped(val: int, n: int, half: int): int
    requires n > 0
  {
    var r := val % n;
    if r >= half then r - n else r
  }

  lemma CutSigned(val: int, p: int, q: int, half: int)
    requires p > 0 && q > 0 && q == 2 * half
    ensures p * q > 0 && Wrapped(val / p, q, half) == Wrapped(val, p * q, p * half) / p
  {
    MulMono(p, 1, q);
    var u := val % (p * q);
    CutDown(val, p, q, val / (p * q), u);
    if u >= p * half {
      AtLeast(u, p, half);
      Shifted(u, p, q);
    } else {
      Under(u, p, half);
    }
  }

  lemma CutDown(val: int, p: int, q: int, k: int, u: int)
    requires p > 0 && q > 0 && val == p * q * k + u && 0 <= u < p * q
    ensures val / p % q == u / p
  {
    var v := u / p;
    Regroup(p, q, k, v);
    DivModUnique(val, p, q * k + v, u % p);
    Under(u, p, q);
    if v < 0 {
      MulMono(p, v, -1);
    }
    DivModUnique(q * k + v, q, k, v);
  }

  lemma Regroup(p: int, q: int, k: int, v: int)
    ensures p * q * k + p * v == p * (q * k + v)
  {
  }

  lemma Under(u: int, p: int, q: int)
    requires p > 0 && u < p * q
    ensures u / p < q
  {
    if u / p >= q {
      MulMono(p, q, u / p);
    }
  }

  lemma AtLeast(u: int, p: int, q: int)
    requires p > 0 && u >= p * q
    ensures u / p >= q
  {
    if u / p <= q - 1 {
      MulMono(p, u / p, q - 1);
      MulSub(p, q, 1);
    }
  }

  lemma Shifted(u: int, p: int, q: int)
    requires p > 0
    ensures (u - p * q) / p == u / p - q
  {
    MulSub(p, u / p, q);
    DivModUnique(u - p * q, p, u / p - q, u % p);
  }

  /** The four cases of the rounding rule, with t the value cut off at the point and p half its unit. */
  lemma Rounds(s: int, p: int, t: int, h: int, rest: int, r: int)
    requires p > 0 && s == 2 * p * t + p * h + rest && 0 <= rest < p && 0 <= h <= 1
    requires r == if h == 0 || (rest == 0 && t % 2 == 0) then t else t + 1
    ensures Nearest(s, 2 * p, r)
  {
    assert 2 * p * (t + 1) == 2 * p * t + 2 * p;
    Swap(2 * p, r);
  }

  lemma Swap(x: int, y: int)
    ensures x * y == y * x
  {
  }

  lemma HalfSplit(s: int, p: int)
    requires p > 0
    ensures s == 2 * p * (s / (2 * p)) + p * (s / p % 2) + s % p
  {
    DivDiv(s, p, 2);
    var q := s / p;
    assert p * (2 * (q / 2) + q % 2) == 2 * p * (q / 2) + p * (q % 2);
  }

  /** rndbits is convergent rounding: the result is an integer nearest to the input in units of the last bit
      kept, and a tie goes to the even one.  The one-bit path follows the same rule. */
  lemma RndBitsNearest(val: int, bitsIn: nat, bitsOut: nat)
    requires 1 <= bitsOut < bitsIn <= 63 && bitsIn - bitsOut <= 32
    ensures Nearest(Signed(val, bitsIn), Pow2(bitsIn - bitsOut), RndBits(val, bitsIn, bitsOut))
  {
    var s, d := Signed(val, bitsIn), bitsIn - bitsOut;
    SbitsIs(val, bitsIn);
    SbitsIs(val / Pow2(d), bitsOut);
    CutSign(val, bitsOut, d);
    assert Pow2(1) == 2;
    RoundsOff(s, d);
  }

  lemma RoundsOff(s: int, d: nat)
    requires 1 <= d <= 32
    ensures Nearest(s, Pow2(d), OffByMore(s, s / Pow2(d), d))
    ensures d == 1 ==> OffByHalf(s, s / Pow2(d)) == OffByMore(s, s / Pow2(d), d)
  {
    SmallMod(d - 1, 32);
    var p := Pow2(d - 1);
    RoundsAt(s, p, s / (2 * p), OffByMore(s, s / (2 * p), d));
    if d == 1 {
      OneBit(s, p);
    }
  }

  lemma RoundsAt(s: int, p: int, t: int, r: int)
    requires p > 0 && t == s / (2 * p)
    requires r == if s / p % 2 == 0 then t else if s % p != 0 then t + 1 else if t % 2 == 1 then t + 1 else t
    ensures Nearest(s, 2 * p, r)
  {
    HalfSplit(s, p);
    Rounds(s, p, t, s / p % 2, s % p, r);
  }

  lemma OneBit(s: int, p: int)
    requires p == 1
    ensures s % p == 0 && (s % 4 == 3 <==> s / p % 2 == 1 && s / (2 * p) % 2 == 1)
  {
    DivModUnique(s, 1, s, 0);
  }

  /** An input just above a half that the mask mistakes for a half. */
  function Mistaken(d: nat): nat
    requires d >= 1
  {
    Pow2(d - 1) + Pow2((d - 1) % 32)
  }

  /** For instance 2^35 + 8, from 40 bits to 4: the nearest integer is 1, and the answer is 0. */
  lemma MistakenRounds(bitsIn: nat, bitsOut: nat)
    requires 1 <= bitsOut < bitsIn <= 63 && bitsIn - bitsOut > 32
    ensures var d := bitsIn - bitsOut;
            && Mistaken(d) < 0x8000_0000_0000_0000 && RndBits(Mistaken(d), bitsIn, bitsOut) == 0
            && !Nearest(Signed(Mistaken(d), bitsIn), Pow2(d), 0)
  {
    var d := bitsIn - bitsOut;
    MistakenSigned(d, bitsIn, bitsOut);
    SbitsIs(Mistaken(d), bitsIn);
    SbitsIs(Mistaken(d) / Pow2(d), bitsOut);
    MistakenOff(d);
    LongBound(d, 63);
  }

  lemma MistakenOff(d: nat)
    requires d > 32
    ensures OffByMore(Mistaken(d), 0, d) == 0 && !Nearest(Mistaken(d), Pow2(d), 0)
  {
    MistakenBits(d);
  }

  /** The input is small enough to be its own signed value, and to vanish when it is cut. */
  lemma MistakenSigned(d: nat, bitsIn: nat, bitsOut: nat)
    requires 1 <= bitsOut && d > 32 && bitsIn == bitsOut + d
    ensures Signed(Mistaken(d), bitsIn) == Mistaken(d) < Pow2(d) && Signed(Mistaken(d) / Pow2(d), bitsOut) == 0
  {
    Pow2Mono((d - 1) % 32 + 1, d - 1);
    OwnSign(Mistaken(d), d, bitsIn, bitsOut);
  }

  lemma OwnSign(v: nat, d: nat, bitsIn: nat, bitsOut: nat)
    requires 1 <= bitsOut && bitsIn == bitsOut + d && v < Pow2(d)
    ensures Signed(v, bitsIn) == v && Signed(v / Pow2(d), bitsOut) == 0
  {
    Pow2Mono(d, bitsIn - 1);
    SmallMod(v, Pow2(bitsIn));
    SmallMod(v, Pow2(d));
    SmallMod(0, Pow2(bitsOut));
  }

  lemma WordValue()
    ensures Pow2(64) == 0x1_0000_0000_0000_0000
  {
    assert Pow2(8) == 256;
    Pow2Add(8, 8);
    Pow2Add(16, 16);
    Pow2Add(32, 32);
  }

  lemma LongBound(d: nat, k: nat)
    requires d <= k == 63
    ensures Pow2(d) <= 0x8000_0000_0000_0000
  {
    WordValue();
    assert Pow2(k + 1) == 2 * Pow2(k);
    Pow2Mono(d, k);
  }

  lemma MistakenBits(d: nat)
    requires d > 32
    ensures var v := Mistaken(d); v / Pow2(d - 1) % 2 == 1 && Masked(v, d - 1) == 0 && 2 * v > Pow2(d)
  {
    var k := (d - 1) % 32;
    Pow2Mono(k + 1, d - 1);
    DivModUnique(Mistaken(d), Pow2(d - 1), 1, Pow2(k));
    Pow2Add(k, d - 1 - k);
    Multiple(Pow2(k), Pow2(d - 1 - k));
  }

  lemma Multiple(a: int, b: int)
    requires a > 0
    ensures (a * b + a) % a == 0
  {
    assert a * (b + 1) == a * b + a;
    DivModUnique(a * b + a, a, b + 1, 0);
  }

  /** An input that is rounded wrongly when the width is that of the whole word, because sbits then answers 0: three
      halves, or just above a half. */
  function Unseen(d: nat): nat
    requires d >= 1
  {
    if d == 1 then 3 else Pow2(d - 1) + 1
  }

  /** For instance 0x800001, from 64 bits to 40: the nearest integer is 1, and the answer is 0. */
  lemma WholeWordRounds(bitsOut: nat)
    requires 1 <= bitsOut < 64
    ensures var d := 64 - bitsOut;
            && Unseen(d) < 0x8000_0000_0000_0000
            && !Nearest(Signed(Unseen(d), 64), Pow2(d), RndBits(Unseen(d), 64, bitsOut))
  {
    var d := 64 - bitsOut;
    SbitsIs(Unseen(d) / Pow2(d), bitsOut);
    if d == 1 {
      assert Pow2(1) == 2;
      ThreeHalves(64);
    } else {
      AboveHalf(d, bitsOut);
    }
  }

  lemma AboveHalf(d: nat, bitsOut: nat)
    requires d >= 2 && bitsOut == 64 - d >= 1
    ensures Unseen(d) < 0x8000_0000_0000_0000 && Signed(Unseen(d), 64) == Unseen(d)
    ensures Signed(Unseen(d) / Pow2(d), bitsOut) == 0 && OffByMore(0, 0, d) == 0 && !Nearest(Unseen(d), Pow2(d), 0)
  {
    Pow2Mono(1, d - 1);
    OwnSign(Unseen(d), d, bitsOut + d, bitsOut);
    LongBound(d, 63);
    HalfUp(Pow2(d - 1));
    SmallMod(0, Pow2(d - 1));
  }

  lemma ThreeHalves(bits: nat)
    requires bits == 64
    ensures Signed(3, bits) == 3 && Signed(1, bits - 1) == 1
  {
    Pow2Mono(2, bits - 2);
    SmallMod(3, Pow2(bits));
    SmallMod(1, Pow2(bits - 1));
  }

  lemma HalfUp(p: nat)
    ensures !Nearest(p + 1, 2 * p, 0)
  {
  }

  /** For the widths a long can have, the rule holds for every input if and only if one bit is to spare and at most 32
      bits are cut off. */
  lemma RndBitsNearestIff(bitsIn: nat, bitsOut: nat)
    requires 1 <= bitsOut < bitsIn <= 64
    ensures (forall val: Long :: Nearest(Signed(val, bitsIn), Pow2(bitsIn - bitsOut), RndBits(val, bitsIn, bitsOut))) <==>
              bitsIn <= 63 && bitsIn - bitsOut <= 32
  {
    var d := bitsIn - bitsOut;
    if bitsIn == 64 {
      WholeWordRounds(bitsOut);
      Fails(Unseen(d), bitsIn, bitsOut);
    } else if d <= 32 {
      forall val: Long ensures Nearest(Signed(val, bitsIn), Pow2(d), RndBits(val, bitsIn, bitsOut)) {
        RndBitsNearest(val, bitsIn, bitsOut);
      }
    } else {
      MistakenRounds(bitsIn, bitsOut);
      Fails(Mistaken(d), bitsIn, bitsOut);
    }
  }

  lemma Fails(v: Long, bitsIn: nat, bitsOut: nat)
    requires 1 <= bitsOut < bitsIn <= 64 && !Nearest(Signed(v, bitsIn), Pow2(bitsIn - bitsOut), RndBits(v, bitsIn, bitsOut))
    ensures exists val: Long :: !Nearest(Signed(val, bitsIn), Pow2(bitsIn - bitsOut), RndBits(val, bitsIn, bitsOut))
  {
  }
}
