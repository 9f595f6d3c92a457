/** Bytes on the wires of the flash device, as rtl/qflexpress.v clocks them out: a falling edge per bit,
    most significant first, then the clock high again for as long as it takes. */
module FlashWire {
  import opened Arith
  import Fold
  import opened FlashChip

  /** n ticks of the countdown. */
  function Down(s: Status, n: nat): Status {
    if n == 0 then s else CountDown(Down(s, n - 1))
  }

  lemma {:induction false} DownStill(s: Status, n: nat)
    requires s.writeCount == 0
    ensures Down(s, n) == s
  {
    if n > 0 {
      DownStill(s, n - 1);
    }
  }

  lemma {:induction false} DownDown(s: Status, m: nat, n: nat)
    ensures Down(Down(s, m), n) == Down(s, m + n)
  {
    if n > 0 {
      DownDown(s, m, n - 1);
    }
  }

  function Pause(c: Chip, n: nat): Chip {
    c.(ctl := c.ctl.(status := Down(c.ctl.status, n)))
  }

  /** One clock: the edge that takes the wires in, then the clock high for at least one tick. */
  datatype Beat = Beat(dat: Pins, pad: nat)

  function Beaten(l: Logic, c: Chip, b: Beat): Chip {
    Pause(Edge(l, Age(c), b.dat), b.pad + 1).(lastSck := true)
  }

  function Beats(l: Logic, c: Chip, bs: seq<Beat>): Chip {
    Fold.Run((d: Chip, b: Beat) => Beaten(l, d, b), c, bs)
  }

  // ---------------------------------------------------------------------------------------------
  // A byte, one bit at a time

  /** The device is between bytes of a single-wire transaction. */
  predicate Serial(c: Chip) {
    && c.ctl.mode.Spi? && !Suspended(c.ctl.state) && !c.ctl.state.Failed?
    && c.lastSck && c.count % 8 == 0 && c.count + 8 < CountWrap
  }

  /** Bits within a byte mean nothing yet. */
  ghost predicate Passive(l: Logic) {
    && (forall c: Control, count: nat, r: nat :: !Suspended(c.state) && count % 8 != 0 ==>
          l.respond(c, count, r) == c)
    && (forall m: Memory, c: Control, count: nat, r: nat, o: nat :: !Suspended(c.state) && count % 8 != 0 ==>
          l.out(m, c, count, r, o) == o)
  }

  lemma FlashPassive()
    ensures Passive(Flash())
  {
    var l := Flash();
    forall c: Control, count: nat, r: nat | !Suspended(c.state) && count % 8 != 0 ensures l.respond(c, count, r) == c {
      assert Respond(c, count, r) == c;
    }
    forall m: Memory, c: Control, count: nat, r: nat, o: nat | !Suspended(c.state) && count % 8 != 0
      ensures l.out(m, c, count, r, o) == o
    {
      assert RespondOut(m, c, count, r, o) == o;
    }
  }

  /** The device after one more byte. */
  function Byted(l: Logic, c: Chip, b: nat): Chip {
    Struck(l, c, c.count + 8, 256 * c.ireg + b, 256 * c.oreg).(lastSck := true)
  }

  /** A bit that does not end a byte. */
  function Bitted(c: Chip, bit: nat, ticks: nat): Chip {
    c.(ireg := 2 * c.ireg + bit, oreg := 2 * c.oreg, count := c.count + 1,
       ctl := c.ctl.(status := Down(c.ctl.status, ticks)))
  }

  lemma InnerBit(l: Logic, c: Chip, b: Beat)
    requires Passive(l)
    requires c.ctl.mode.Spi? && !Suspended(c.ctl.state) && c.lastSck && (c.count + 1) % 8 != 0
    requires c.count + 8 < CountWrap
    ensures Beaten(l, c, b) == Bitted(c, b.dat % 2, b.pad + 2)
  {
    var d := Age(c);
    assert Counted(d.ctl.mode, d.count) == c.count + 1;
    assert Down(c.ctl.status, 0 + 1) == CountDown(Down(c.ctl.status, 0));
    DownDown(c.ctl.status, 1, b.pad + 1);
  }

  lemma LastBit(l: Logic, c: Chip, b: Beat, x: Chip)
    requires c.ctl.mode.Spi? && c.count + 8 < CountWrap
    requires x == Struck(l, Pause(c, 1), c.count + 1, 2 * c.ireg + b.dat % 2, 2 * c.oreg).(lastSck := true)
    ensures Beaten(l, c, b) == Pause(x, b.pad + 1)
  {
    assert Down(c.ctl.status, 0 + 1) == CountDown(Down(c.ctl.status, 0));
    assert Age(c) == Pause(c, 1);
    assert Counted(c.ctl.mode, c.count) == c.count + 1;
  }

  /** The first k bits of a byte, as a number. */
  function Top(b: nat, k: nat): nat
    requires k <= 8
    decreases 8 - k
  {
    if k == 8 then b else Top(b, k + 1) / 2
  }

  lemma {:induction false} TopIs(b: nat, k: nat)
    requires k <= 8
    ensures Top(b, k) == b / Pow2(8 - k)
    decreases 8 - k
  {
    if k < 8 {
      TopIs(b, k + 1);
      DivDiv(b, Pow2(8 - (k + 1)), 2);
    }
  }

  /** These beats carry a byte on wire 0, high bit first; what the other wires do does not matter. */
  predicate Carries(bs: seq<Beat>, b: nat) {
    b < 256 && |bs| == 8 && forall k :: 0 <= k < 8 ==> bs[k].dat % 2 == Top(b, k + 1) % 2
  }

  /** How long the first k beats take. */
  function Ticks(bs: seq<Beat>, k: nat): nat
    requires k <= |bs|
  {
    if k == 0 then 0 else Ticks(bs, k - 1) + bs[k - 1].pad + 2
  }

  function Partial(c: Chip, b: nat, k: nat, ticks: nat): Chip
    requires k <= 8
  {
    c.(ireg := Pow2(k) * c.ireg + Top(b, k), oreg := Pow2(k) * c.oreg, count := c.count + k,
       ctl := c.ctl.(status := Down(c.ctl.status, ticks)))
  }

  lemma {:induction false} FirstBits(l: Logic, c: Chip, bs: seq<Beat>, b: nat, k: nat)
    requires Passive(l) && Serial(c) && Carries(bs, b) && k <= 7
    ensures Beats(l, c, bs[..k]) == Partial(c, b, k, Ticks(bs, k))
  {
    if k == 0 {
      assert bs[..0] == [];
      TopIs(b, k);
      assert Pow2(8) == 256;
    } else {
      assert bs[..k][..k - 1] == bs[..k - 1];
      FirstBits(l, c, bs, b, k - 1);
      NextBit(l, c, bs, b, k);
    }
  }

  lemma Registers(r: nat, o: nat, b: nat, k: nat)
    requires 1 <= k <= 8
    ensures Pow2(k) * r + Top(b, k) == 2 * (Pow2(k - 1) * r + Top(b, k - 1)) + Top(b, k) % 2
    ensures Pow2(k) * o == 2 * (Pow2(k - 1) * o)
  {
    Doubled(Pow2(k - 1), r);
    Doubled(Pow2(k - 1), o);
  }

  lemma NextBit(l: Logic, c: Chip, bs: seq<Beat>, b: nat, k: nat)
    requires Passive(l) && Serial(c) && Carries(bs, b) && 1 <= k <= 7
    ensures Beaten(l, Partial(c, b, k - 1, Ticks(bs, k - 1)), bs[k - 1]) == Partial(c, b, k, Ticks(bs, k))
  {
    var d := Partial(c, b, k - 1, Ticks(bs, k - 1));
    InnerBit(l, d, bs[k - 1]);
    Registers(c.ireg, c.oreg, b, k);
    DownDown(c.ctl.status, Ticks(bs, k - 1), bs[k - 1].pad + 2);
  }

  /** Eight beats are one byte, whatever time passes between them: some before its last bit, and some
      after. */
  lemma ByteBeats(l: Logic, c: Chip, bs: seq<Beat>, b: nat, x: Chip)
    requires Passive(l) && Serial(c) && Carries(bs, b)
    requires x == Byted(l, Pause(c, Ticks(bs, |bs| - 1) + 1), b)
    ensures Beats(l, c, bs) == Pause(x, bs[7].pad + 1)
  {
    var n := Ticks(bs, |bs| - 1);
    var d := Partial(c, b, |bs| - 1, n);
    var e := Pause(x, bs[7].pad + 1);
    FirstBits(l, c, bs, b, |bs| - 1);
    DownDown(c.ctl.status, n, 1);
    SameStrike(l, c, b, n, bs[7], d, x, |bs|);
    Fold.RunLast((d: Chip, b: Beat) => Beaten(l, d, b), c, bs, d, e);
  }

  lemma SameStrike(l: Logic, c: Chip, b: nat, n: nat, beat: Beat, d: Chip, x: Chip, eight: nat)
    requires eight == 8 && Serial(c) && b < 256 && beat.dat % 2 == Top(b, eight) % 2
    requires Down(Down(c.ctl.status, n), 1) == Down(c.ctl.status, n + 1)
    requires d == Partial(c, b, eight - 1, n) && x == Byted(l, Pause(c, n + 1), b)
    ensures Beaten(l, d, beat) == Pause(x, beat.pad + 1)
  {
    var e := Pause(c, n + 1);
    var f := Pause(d, 1);
    assert f.ctl == e.ctl && f.mem == e.mem;
    Registers(c.ireg, c.oreg, b, eight);
    assert Top(b, eight) == b;
    assert Pow2(8) == 256;
    LastBit(l, d, beat, x);
  }

  /** With no countdown running, the time between bits does not matter at all. */
  lemma StillByte(l: Logic, c: Chip, bs: seq<Beat>, b: nat)
    requires Passive(l) && Serial(c) && Carries(bs, b)
    requires c.ctl.status.writeCount == 0 && Byted(l, c, b).ctl.status.writeCount == 0
    ensures Beats(l, c, bs) == Byted(l, c, b)
  {
    DownStill(c.ctl.status, Ticks(bs, |bs| - 1) + 1);
    ByteBeats(l, c, bs, b, Byted(l, c, b));
    DownStill(Byted(l, c, b).ctl.status, bs[7].pad + 1);
  }

  /** The bits on wire 1 while a byte goes out are the byte that was loaded before. */
  lemma HeardBit(o: nat, k: nat)
    requires 1 <= k <= 8
    ensures Pow2(k) * o / 256 % 2 == Top(o % 256, k) % 2
  {
    TopIs(o % 256, k);
    Pow2Add(k, 8 - k);
    Window(o, Pow2(k), Pow2(8 - k), Pow2(k - 1));
  }

  lemma Window(o: nat, p: nat, q: nat, t: nat)
    requires p > 0 && q > 0 && p == 2 * t && p * q == 256
    ensures p * o / 256 % 2 == o % 256 / q % 2
  {
    Cancel(p, q, o);
    var h, v := o / 256, o % 256;
    Regroup(p, q, h);
    DivAdd(v, q, p * h);
    Doubled(t, h);
    ModMultiple(v / q, 2, t * h);
  }

  lemma Regroup(p: int, q: int, h: int)
    ensures p * q * h == q * (p * h)
  {
  }

  lemma DivAdd(v: nat, q: nat, x: nat)
    requires q > 0
    ensures (q * x + v) / q == v / q + x
  {
    assert q * (v / q + x) == q * (v / q) + q * x;
    DivModUnique(q * x + v, q, v / q + x, v % q);
  }

  lemma Cancel(p: nat, q: nat, o: nat)
    requires p > 0 && q > 0
    ensures p * o / (p * q) == o / q
  {
    var x, r := o / q, o % q;
    assert p * (q * x + r) == p * q * x + p * r;
    MulMono(p, r, q - 1);
    assert p * (q - 1) == p * q - p;
    assert p * q > 0;
    DivModUnique(p * o, p * q, x, p * r);
  }
}
