/** The Internet checksum in its three forms: the deferred-carry loop and the end-around-carry assembly of
    sw/board/ipcksum.c, and the byte-wise loop of sw/rv32/ipcksum.c.  Section 2 of RFC 1071 says why they
    agree: they all compute the same sum in ones' complement. */
module Checksum {
  import opened Arith

  type Byte = n: nat | n < 256
  type Word = n: nat | n < 0x1_0000_0000

  const W32: nat := 0x1_0000_0000

  /** The ones' complement number that a sum stands for, with m = 2^k - 1: only an empty sum is 0, and
      the other zero is m itself. */
  function Ones(x: nat, m: nat): nat
    requires m > 0
  {
    if x == 0 then 0 else 1 + (x - 1) % m
  }

  /** The mathematical sum of the 16-bit halves. */
  function Halves(w: Word): nat {
    w % 0x1_0000 + w / 0x1_0000
  }

  function Total(ws: seq<Word>): nat {
    if ws == [] then 0 else Total(ws[..|ws| - 1]) + ws[|ws| - 1]
  }

  function TotalHalves(ws: seq<Word>): nat {
    if ws == [] then 0 else TotalHalves(ws[..|ws| - 1]) + Halves(ws[|ws| - 1])
  }

  /** The words that lie in memory from the pointer on. */
  type Words = nat -> Word

  /** A 32-bit int. */
  type Int = n: int | -0x8000_0000 <= n < 0x8000_0000

  /** The first n of them. */
  function Read(at: Words, n: nat): (ws: seq<Word>)
    ensures |ws| == n
  {
    seq(n, i requires 0 <= i < n => at(i))
  }

  lemma ReadMore(at: Words, i: nat)
    ensures Total(Read(at, i + 1)) == Total(Read(at, i)) + at(i)
    ensures TotalHalves(Read(at, i + 1)) == TotalHalves(Read(at, i)) + Halves(at(i))
  {
    assert Read(at, i + 1)[..i] == Read(at, i);
  }

  // ---------------------------------------------------------------------------------------------
  // Ones' complement

  lemma OnesBounds(x: nat, m: nat)
    requires m > 0
    ensures Ones(x, m) <= m && (Ones(x, m) == 0 <==> x == 0)
  {
  }

  /** Whatever is congruent to a sum, in range, and zero only with it, is that number. */
  lemma OnesUnique(x: nat, m: nat, r: nat, k: int)
    requires m > 0 && r <= m && x == r + m * k && (r == 0 <==> x == 0)
    ensures r == Ones(x, m)
  {
    if x > 0 {
      DivModUnique(x - 1, m, k, r - 1);
    }
  }

  lemma OnesCongruent(x: nat, m: nat) returns (k: int)
    requires m > 0
    ensures x == Ones(x, m) + m * k
  {
    k := if x == 0 then 0 else (x - 1) / m;
  }

  /** A multiple of the modulus does not matter, unless it is all there is. */
  lemma OnesShift(x: nat, y: nat, m: nat, k: int)
    requires m > 0 && x == y + m * k && (x == 0 <==> y == 0)
    ensures Ones(x, m) == Ones(y, m)
  {
    var j := OnesCongruent(y, m);
    Distribute(m, j, k);
    OnesBounds(y, m);
    OnesUnique(x, m, Ones(y, m), j + k);
  }

  lemma Distribute(m: int, j: int, k: int)
    ensures m * (j + k) == m * j + m * k
  {
  }

  // ---------------------------------------------------------------------------------------------
  // The fold loop

  /** Fold until nothing is above the sixteenth bit. */
  method FoldCarries(sum: nat) returns (r: nat)
    requires sum < W32
    ensures r == Ones(sum, 0xffff)
  {
    r := sum;
    ghost var k: int := 0;
    while r > 0xffff
      invariant sum == r + 0xffff * k && (r == 0 <==> sum == 0) && 0 <= r
      decreases r
    {
      FoldStep(r);
      k := k + r / 0x1_0000;
      r := r % 0x1_0000 + r / 0x1_0000;
    }
    OnesUnique(sum, 0xffff, r, k);
  }

  lemma FoldStep(r: nat)
    ensures r == r % 0x1_0000 + r / 0x1_0000 + 0xffff * (r / 0x1_0000)
    ensures r > 0xffff ==> 0 < r % 0x1_0000 + r / 0x1_0000 < r
  {
  }

  // ---------------------------------------------------------------------------------------------
  // The loop with deferred carries

  lemma {:induction false} HalvesBound(ws: seq<Word>)
    ensures TotalHalves(ws) <= 0x1_fffe * |ws|
  {
    if ws != [] {
      HalvesBound(ws[..|ws| - 1]);
    }
  }

  /** How often the loop in C goes round. */
  function Count(len: Int): nat {
    if len < 0 then 0 else len
  }

  /** The loop in C, in 32 bits. */
  method DeferredSum(at: Words, len: Int) returns (sum: nat)
    ensures sum < W32 && sum == TotalHalves(Read(at, Count(len))) % W32
  {
    sum := 0;
    var i := 0;
    while i < len
      invariant 0 <= i <= Count(len) && sum == TotalHalves(Read(at, i)) % W32
    {
      ReadMore(at, i);
      WrapAdd(TotalHalves(Read(at, i)), Halves(at(i)));
      sum := (sum + at(i) % 0x1_0000 + at(i) / 0x1_0000) % W32;
      i := i + 1;
    }
  }

  lemma WrapAdd(x: nat, y: nat)
    ensures (x % W32 + y) % W32 == (x + y) % W32
  {
    ModMultiple(x % W32 + y, W32, x / W32);
  }

  /** What it returns. */
  function FromC(at: Words, len: Int): int {
    0xffff - Ones(TotalHalves(Read(at, Count(len))) % W32, 0xffff)
  }

  method IpcksumC(at: Words, len: Int) returns (r: nat)
    ensures r == FromC(at, len)
  {
    var sum := DeferredSum(at, len);
    var c := FoldCarries(sum);
    OnesBounds(sum, 0xffff);
    r := 0xffff - c;
  }

  // ---------------------------------------------------------------------------------------------
  // The assembly

  /** Add, and add the carry back in at the bottom. */
  function EndAround(acc: Word, w: Word): Word {
    if acc + w >= W32 then acc + w - W32 + 1 else acc + w
  }

  lemma EndAroundIs(x: nat, w: Word)
    ensures Ones(x, W32 - 1) < W32 && EndAround(Ones(x, W32 - 1), w) == Ones(x + w, W32 - 1)
  {
    var m := W32 - 1;
    OnesBounds(x, m);
    var k := OnesCongruent(x, m);
    var acc := Ones(x, m);
    if acc + w >= W32 {
      Distribute(m, k, 1);
      OnesUnique(x + w, m, acc + w - m, k + 1);
    } else {
      OnesUnique(x + w, m, acc + w, k);
    }
  }

  /** How often the loop of the assembly goes round: it tests its 32-bit counter after counting down. */
  function Turns(len: Int): nat {
    if len <= 0 then W32 + len else len
  }

  /** What the assembly returns. */
  function FromAsm(at: Words, len: Int): int {
    0xffff - Ones(Total(Read(at, Turns(len))), 0xffff)
  }

  method IpcksumAsm(at: Words, len: Int) returns (r: nat)
    ensures r == FromAsm(at, len)
  {
    var acc := SumAround(at, len);
    OneFold(acc);
    FoldsOut(Total(Read(at, Turns(len))));
    var f := acc % 0x1_0000 + acc / 0x1_0000;
    if f > 0xffff {
      f := f + 1;
    }
    f := f % 0x1_0000;
    r := 0xffff - f;
  }

  /** The loop of the assembly. */
  method SumAround(at: Words, len: Int) returns (acc: Word)
    ensures acc == Ones(Total(Read(at, Turns(len))), W32 - 1)
  {
    acc := 0;
    var i, left, more := 0, len % W32, true;
    ghost var turns := Turns(len);
    Starting(len);
    while more
      invariant 0 <= i <= turns && acc == Ones(Total(Read(at, i)), W32 - 1)
      invariant if more then i < turns && left == (turns - i) % W32 else i == turns
      decreases turns - i, more
    {
      ReadMore(at, i);
      EndAroundIs(Total(Read(at, i)), at(i));
      CountsDown(turns, i);
      acc := EndAround(acc, at(i));
      i := i + 1;
      left := (left - 1) % W32;
      more := left != 0;
    }
  }

  lemma Starting(len: Int)
    ensures 0 < Turns(len) <= W32 && len % W32 == Turns(len) % W32
  {
    ModMultiple(len, W32, 1);
  }

  lemma CountsDown(turns: nat, i: nat)
    requires i < turns <= W32
    ensures ((turns - i) % W32 - 1) % W32 == turns - i - 1 == (turns - i - 1) % W32
  {
    SmallMod(turns - i - 1, W32);
    if turns - i == W32 {
      DivModUnique(-1, W32, -1, W32 - 1);
    } else {
      SmallMod(turns - i, W32);
    }
  }

  /** One fold and its carry are enough, after end-around carries. */
  lemma OneFold(acc: Word)
    ensures var f := acc % 0x1_0000 + acc / 0x1_0000;
            (if f > 0xffff then f + 1 else f) % 0x1_0000 == Ones(acc, 0xffff)
  {
    FoldStep(acc);
    var f, k := acc % 0x1_0000 + acc / 0x1_0000, acc / 0x1_0000;
    if f > 0xffff {
      DivModUnique(f + 1, 0x1_0000, 1, f + 1 - 0x1_0000);
      OnesUnique(acc, 0xffff, f + 1 - 0x1_0000, k + 1);
    } else {
      SmallMod(f, 0x1_0000);
      OnesUnique(acc, 0xffff, f, k);
    }
  }

  /** 2^16 - 1 divides 2^32 - 1, so nothing is lost by carrying around the longer way first. */
  lemma FoldsOut(x: nat)
    ensures Ones(Ones(x, W32 - 1), 0xffff) == Ones(x, 0xffff)
  {
    var k := OnesCongruent(x, W32 - 1);
    OnesBounds(x, W32 - 1);
    assert (W32 - 1) * k == 0xffff * (0x1_0001 * k);
    OnesShift(x, Ones(x, W32 - 1), 0xffff, 0x1_0001 * k);
  }

  lemma {:induction false} SameSum(ws: seq<Word>)
    ensures Ones(TotalHalves(ws), 0xffff) == Ones(Total(ws), 0xffff)
  {
    var k := Congruent(ws);
    OnesShift(Total(ws), TotalHalves(ws), 0xffff, k);
  }

  lemma {:induction false} Congruent(ws: seq<Word>) returns (k: int)
    ensures Total(ws) == TotalHalves(ws) + 0xffff * k && (Total(ws) == 0 <==> TotalHalves(ws) == 0)
  {
    k := 0;
    if ws != [] {
      k := Congruent(ws[..|ws| - 1]);
      var w := ws[|ws| - 1];
      FoldStep(w);
      k := k + w / 0x1_0000;
    }
  }

  /** The C and the assembly agree on every array of 1 to 32768 words. */
  lemma FormsAgree(at: Words, len: Int)
    requires 1 <= len <= 32768
    ensures FromC(at, len) == FromAsm(at, len)
  {
    var ws := Read(at, len);
    HalvesBound(ws);
    SmallMod(TotalHalves(ws), W32);
    SameSum(ws);
  }

  lemma {:induction false} AllOnes(n: nat)
    ensures var ws: seq<Word> := seq(n, _ => 0xffff_ffff);
            Total(ws) == 0xffff_ffff * n && TotalHalves(ws) == 0x1_fffe * n
  {
    if n > 0 {
      AllOnes(n - 1);
      var ws: seq<Word> := seq(n, _ => 0xffff_ffff);
      assert ws[..n - 1] == seq(n - 1, _ => 0xffff_ffff);
    }
  }

  /** One word more, and the deferred carries no longer fit: an array of ones. */
  lemma OnesDiffer()
    ensures var ws: seq<Word> := seq(32769, _ => 0xffff_ffff);
            Ones(TotalHalves(ws) % W32, 0xffff) != Ones(Total(ws), 0xffff)
  {
    AllOnes(32769);
    DivModUnique(0x1_fffe * 32769, W32, 1, 0xfffe);
    OnesUnique(0xffff_ffff * 32769, 0xffff, 0xffff, 0x1_0001 * 32769 - 1);
  }

  lemma {:induction false} PadWithZeros(ws: seq<Word>, m: nat)
    ensures Total(ws + seq(m, _ => 0)) == Total(ws) && TotalHalves(ws + seq(m, _ => 0)) == TotalHalves(ws)
  {
    var zeros: seq<Word> := seq(m, _ => 0);
    if m == 0 {
      assert ws + zeros == ws;
    } else {
      var all := ws + zeros;
      PadWithZeros(ws, m - 1);
      assert all[..|all| - 1] == ws + seq(m - 1, _ => 0);
    }
  }

  /** That array, with zeros behind it. */
  function TooMany(i: nat): Word {
    if i < 32769 then 0xffff_ffff else 0
  }

  /** So the two differ on it, however many of the zeros are summed. */
  lemma FormsDiffer(len: Int)
    requires len >= 32769
    ensures FromC(TooMany, len) != FromAsm(TooMany, len)
  {
    var n: nat := len;
    var ws: seq<Word> := seq(32769, _ => 0xffff_ffff);
    OnesDiffer();
    PadWithZeros(ws, n - 32769);
    var all: seq<Word> := ws + seq(n - 32769, _ => 0);
    forall i | 0 <= i < n ensures Read(TooMany, n)[i] == all[i] {
      assert Read(TooMany, n)[i] == TooMany(i);
    }
    assert Read(TooMany, n) == all;
  }

  function OneWord(i: nat): Word {
    if i == 0 then 1 else 0
  }

  /** With no words at all, or a negative number, the assembly goes round billions of times, and sums what lies behind
      the pointer. */
  lemma EmptyDiffers(len: Int)
    requires len <= 0
    ensures FromC(OneWord, len) != FromAsm(OneWord, len)
  {
    var n := Turns(len);
    PadWithZeros([1], n - 1);
    var all: seq<Word> := [1] + seq(n - 1, _ => 0);
    forall i | 0 <= i < n ensures Read(OneWord, n)[i] == all[i] {
      assert Read(OneWord, n)[i] == OneWord(i);
    }
    assert Read(OneWord, n) == all;
    assert Total([1]) == Total([]) + 1;
  }

  /** The C and the assembly return the same for all arrays of this length if and only if it is from 1 to 32768. */
  lemma FormsAgreeIff(len: Int)
    ensures (forall at: Words :: FromC(at, len) == FromAsm(at, len)) <==> 1 <= len <= 32768
  {
    if len <= 0 {
      EmptyDiffers(len);
    } else if len <= 32768 {
      forall at: Words ensures FromC(at, len) == FromAsm(at, len) {
        FormsAgree(at, len);
      }
    } else {
      FormsDiffer(len);
    }
  }

  // ---------------------------------------------------------------------------------------------
  // Bytes

  /** The big-endian sixteen-bit words of an even number of bytes. */
  function Pairs(bs: seq<Byte>): nat {
    if |bs| < 2 then 0
    else
      var hi: nat, lo: nat := bs[|bs| - 2], bs[|bs| - 1];
      Pairs(bs[..|bs| - 2]) + 256 * hi + lo
  }

  lemma {:induction false} PairsBound(bs: seq<Byte>)
    ensures Pairs(bs) <= 0xffff * (|bs| / 2)
  {
    if |bs| >= 2 {
      PairsBound(bs[..|bs| - 2]);
    }
  }

  /** The bytes the loop looks at: with an odd length, also the one past the end. */
  function Rounded(bs: seq<Byte>, past: Byte): (r: seq<Byte>)
    ensures |r| % 2 == 0
  {
    if |bs| % 2 == 0 then bs else bs + [past]
  }

  /** The byte-wise form, in 32 bits. */
  method IpcksumBytes(bs: seq<Byte>, past: Byte) returns (r: nat)
    ensures r == 0xffff - Ones(Pairs(Rounded(bs, past)) % W32, 0xffff)
  {
    var all := Rounded(bs, past);
    var sum := 0;
    var i := 0;
    while i < |bs|
      invariant i <= |all| && i % 2 == 0 && 0 <= sum < W32 && sum == Pairs(all[..i]) % W32
    {
      assert all[..i + 2][..i] == all[..i];
      var hi: nat, lo: nat := all[i], all[i + 1];
      WrapAdd(Pairs(all[..i]), 256 * hi + lo);
      sum := (sum + 256 * hi + lo) % W32;
      i := i + 2;
    }
    assert all[..i] == all;
    var c := FoldCarries(sum);
    OnesBounds(sum, 0xffff);
    r := 0xffff - c;
  }

  /** 65537 pairs are as many as 32 bits hold. */
  lemma BytesFit(bs: seq<Byte>)
    requires |bs| <= 2 * 65537
    ensures Pairs(bs) % W32 == Pairs(bs)
  {
    PairsBound(bs);
    SmallMod(Pairs(bs), W32);
  }

  lemma {:induction false} OnesPairs(n: nat)
    ensures Pairs(seq(2 * n, _ => 255)) == 0xffff * n
  {
    if n > 0 {
      var bs: seq<Byte> := seq(2 * n, _ => 255);
      OnesPairs(n - 1);
      assert bs[..|bs| - 2] == seq(2 * (n - 1), _ => 255);
    }
  }

  /** The sum of every array of this many pairs fits 32 bits if and only if there are at most 65537. */
  lemma BytesFitIff(n: nat)
    ensures (forall bs: seq<Byte> :: |bs| == 2 * n ==> Pairs(bs) % W32 == Pairs(bs)) <==> n <= 65537
  {
    if n <= 65537 {
      forall bs: seq<Byte> | |bs| == 2 * n ensures Pairs(bs) % W32 == Pairs(bs) {
        BytesFit(bs);
      }
    } else {
      var bs: seq<Byte> := seq(2 * n, _ => 255);
      OnesPairs(n);
      assert |bs| == 2 * n && Pairs(bs) >= W32;
    }
  }

  /** Adding the complement of a sum makes the sum all ones. */
  lemma ComplementFills(s: nat)
    ensures Ones(s, 0xffff) <= 0xffff && Ones(s + 0xffff - Ones(s, 0xffff), 0xffff) == 0xffff
  {
    OnesBounds(s, 0xffff);
    var k := OnesCongruent(s, 0xffff);
    Distribute(0xffff, k, 1);
    if k < 0 {
      MulMono(0xffff, k, -1);
    }
    OnesUnique(s + 0xffff - Ones(s, 0xffff), 0xffff, 0xffff, k);
  }
}
