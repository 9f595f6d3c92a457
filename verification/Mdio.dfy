/** The management interface slave of sim/verilated/enetctrlsim.cpp, and the frames of clause 22.2.4.5 of
    IEEE 802.3 that it takes. */
module Mdio {
  import opened Arith

  const W32: nat := 0x1_0000_0000
  const AllOnes: nat := 0xffff_ffff
  const PhyAddr: nat := 1
  const TicksPerClock: nat := 4

  type Registers = s: seq<nat> | |s| == 32 witness seq(32, _ => 0)

  /** The part that decides what the bits mean; `failed` once the assert on the turnaround bit has ended the
      program. */
  datatype Decoder = Decoder(consecutive: nat, synched: bool, halfword: nat, datareg: nat, mem: Registers, failed: bool)

  /** The part that times the clock, and the register that answers reads. */
  datatype Slave = Slave(dec: Decoder, lastClk: bool, tickCount: nat, ticksPerClock: nat, outreg: nat)

  function Bit(b: bool): nat {
    if b then 1 else 0
  }

  // ---------------------------------------------------------------------------------------------
  // One call

  /** A rising clock edge: count the ones, and start over when the clock is not steady. */
  function Count(d: Decoder, data: bool, steady: bool): Decoder {
    if !steady then d.(consecutive := 0, synched := false)
    else d.(consecutive := if !data then 0 else if d.consecutive < 128 then d.consecutive + 1 else d.consecutive)
  }

  /** A long enough run of ones starts a frame over. */
  function Resync(d: Decoder): Decoder {
    if d.consecutive > 32 then d.(synched := true, halfword := 0, datareg := AllOnes) else d
  }

  /** The fields of a complete frame. */
  function Op(v: nat): nat { v / 0x1000_0000 % 16 }
  function Phy(v: nat): nat { v / 0x80_0000 % 32 }
  function Reg(v: nat): nat { v / 0x4_0000 % 32 }
  function Data(v: nat): nat { v % 0x1_0000 }

  /** A frame that writes a register here. */
  predicate WritesHere(v: nat) {
    Op(v) == 5 && Phy(v) == PhyAddr
  }

  /** Such a frame fails the assert when its second turnaround bit is set. */
  predicate Fails(v: nat) {
    WritesHere(v) && v / 0x1_0000 % 2 == 1
  }

  /** What a frame leaves in the registers. */
  function Effect(mem: Registers, v: nat): Registers {
    if WritesHere(v) then mem[Reg(v) := Data(v)] else mem
  }

  /** A bit of a frame. */
  function Shift(d: Decoder, data: bool): Decoder {
    if !d.synched then d
    else
      var e := d.(datareg := (2 * d.datareg + Bit(data)) % W32);
      if e.halfword == 0 then
        if e.datareg / 0x8000 % 2 == 0 then e.(halfword := 1) else e
      else if e.halfword < 16 then e.(halfword := e.halfword + 1)
      else if Fails(e.datareg) then e.(failed := true)
      else e.(halfword := 0, datareg := AllOnes, mem := Effect(e.mem, e.datareg))
  }

  /** Has this bit just completed the first half of a frame that reads a register here? */
  predicate ReadsHere(before: Decoder, after: Decoder) {
    before.synched && before.halfword == 0 && after.halfword == 1
    && after.datareg / 0x1000 % 16 == 6 && after.datareg / 0x80 % 32 == PhyAddr
  }

  /** The answer register, loaded with a register of the device. */
  function Loaded(value: nat): nat {
    0x8000_0000 + 0x8000 * (value % 0x1_0000) + 0x7fff
  }

  /** One call out of reset. */
  function Call(s: Slave, clk: bool, data: bool): Slave {
    var ticks := s.tickCount + 1;
    if s.dec.failed then s
    else if clk && !s.lastClk then
      var steady := ticks == s.ticksPerClock && s.ticksPerClock >= TicksPerClock;
      var before := Resync(Count(s.dec, data, steady));
      var after := Shift(before, data);
      Slave(after, clk, 0, ticks,
            if ReadsHere(before, after) then Loaded(after.mem[after.datareg / 4 % 32]) else s.outreg)
    else
      Slave(Resync(s.dec), clk, ticks, s.ticksPerClock,
            if !clk && s.lastClk then (2 * s.outreg + 1) % W32 else s.outreg)
  }

  /** The bit a call answers with: low when either side pulls the line low. */
  function Answer(s: Slave, data: bool): bool {
    data && s.outreg / 0x4000_0000 % 2 == 1
  }

  /** One call in reset. */
  function Reset(s: Slave, clk: bool): Slave {
    if s.dec.failed then s
    else s.(dec := s.dec.(consecutive := 0, synched := false, datareg := AllOnes), lastClk := clk,
            tickCount := s.tickCount + 1)
  }

  // ---------------------------------------------------------------------------------------------
  // One clock period

  /** What a steady clock period does to the decoder. */
  function Clocked(d: Decoder, data: bool): Decoder {
    if d.failed then d else Shift(Resync(Count(d, data, true)), data)
  }

  /** Resynchronising again changes nothing: a run of ones that long has left only ones. */
  predicate Stable(d: Decoder) {
    d.consecutive > 32 ==> d.synched && d.halfword == 0 && d.datareg == AllOnes
  }

  lemma ClockedStable(d: Decoder, data: bool)
    requires !d.failed
    ensures Stable(Clocked(d, data)) && Resync(Clocked(d, data)) == Clocked(d, data)
  {
  }

  /** Calls with the clock high, then low; the data may do anything meanwhile. */
  function Hold(s: Slave, clks: seq<bool>, datas: seq<bool>): Slave
    requires |clks| == |datas|
  {
    if clks == [] then s
    else Call(Hold(s, clks[..|clks| - 1], datas[..|clks| - 1]), clks[|clks| - 1], datas[|clks| - 1])
  }

  predicate HighThenLow(clks: seq<bool>) {
    forall i, j :: 0 <= i < j < |clks| && clks[j] ==> clks[i]
  }

  lemma {:induction false} HoldKeeps(s: Slave, clks: seq<bool>, datas: seq<bool>)
    requires |clks| == |datas| && s.lastClk && Stable(s.dec) && HighThenLow(clks)
    ensures var t := Hold(s, clks, datas);
            && t.dec == s.dec
            && (!s.dec.failed ==>
                  && t.lastClk == (if clks == [] then true else clks[|clks| - 1])
                  && t.tickCount == s.tickCount + |clks| && t.ticksPerClock == s.ticksPerClock)
  {
    if clks != [] {
      var n := |clks| - 1;
      HoldKeeps(s, clks[..n], datas[..n]);
      assert n > 0 && clks[n] ==> clks[n - 1];
    }
  }

  /** The clock is low and has been steady with this period. */
  predicate Steady(s: Slave, period: nat) {
    period >= TicksPerClock && !s.lastClk && s.ticksPerClock == period && s.tickCount + 1 == period
  }

  /** One period of the clock: the bit at its rising edge, and the rest of its calls. */
  datatype Cycle = Cycle(data: bool, clks: seq<bool>, datas: seq<bool>)
  type Period = p: Cycle | |p.clks| == |p.datas| witness Cycle(false, [], [])

  predicate PeriodOk(p: Period, period: nat) {
    |p.clks| == period - 1 && HighThenLow(p.clks) && p.clks != [] && !p.clks[|p.clks| - 1]
  }

  function Through(s: Slave, p: Period): Slave {
    Hold(Call(s, true, p.data), p.clks, p.datas)
  }

  /** A whole period, from rising edge to the last low tick: the decoder takes one bit, and unless that has
      ended the program the clock stays steady. */
  lemma OnePeriod(s: Slave, period: nat, p: Period)
    requires Steady(s, period) && PeriodOk(p, period) && !s.dec.failed
    ensures var t := Through(s, p); t.dec == Clocked(s.dec, p.data) && (!t.dec.failed ==> Steady(t, period))
  {
    ClockedStable(s.dec, p.data);
    HoldKeeps(Call(s, true, p.data), p.clks, p.datas);
  }

  predicate PeriodsOk(ps: seq<Period>, period: nat) {
    forall p <- ps :: PeriodOk(p, period)
  }

  function Periods(s: Slave, ps: seq<Period>): Slave {
    if ps == [] then s else Through(Periods(s, ps[..|ps| - 1]), ps[|ps| - 1])
  }

  function Sampled(ps: seq<Period>): (b: seq<bool>)
    ensures |b| == |ps|
  {
    seq(|ps|, i requires 0 <= i < |ps| => ps[i].data)
  }

  /** Call by call over any number of whole periods of any length, the decoder sees exactly the bits at the
      rising edges. */
  lemma {:induction false} PeriodsSample(s: Slave, period: nat, ps: seq<Period>)
    requires Steady(s, period) && PeriodsOk(ps, period) && !s.dec.failed
    ensures var t := Periods(s, ps); t.dec == Bits(s.dec, Sampled(ps)) && (!t.dec.failed ==> Steady(t, period))
  {
    if ps != [] {
      var n := |ps| - 1;
      PeriodsSample(s, period, ps[..n]);
      assert Sampled(ps)[..n] == Sampled(ps[..n]);
      var t := Periods(s, ps[..n]);
      assert ps[n] in ps;
      if t.dec.failed {
        FailedStays(t, ps[n]);
      } else {
        OnePeriod(t, period, ps[n]);
      }
    }
  }

  lemma FailedStays(s: Slave, p: Period)
    requires s.dec.failed
    ensures Through(s, p) == s
  {
    FailedHolds(s, p.clks, p.datas);
  }

  lemma {:induction false} FailedHolds(s: Slave, clks: seq<bool>, datas: seq<bool>)
    requires s.dec.failed && |clks| == |datas|
    ensures Hold(s, clks, datas) == s
  {
    if clks != [] {
      FailedHolds(s, clks[..|clks| - 1], datas[..|clks| - 1]);
    }
  }

  // ---------------------------------------------------------------------------------------------
  // Frames

  function Bits(d: Decoder, bits: seq<bool>): Decoder {
    if bits == [] then d else Clocked(Bits(d, bits[..|bits| - 1]), bits[|bits| - 1])
  }

  /** Waiting for the first bit of a frame. */
  predicate Ready(d: Decoder) {
    d.synched && d.halfword == 0 && d.datareg == AllOnes && !d.failed
  }

  /** The first k bits of a frame, as a number. */
  function Top(v: nat, k: nat): nat
    requires k <= 32
    decreases 32 - k
  {
    if k == 32 then v else Top(v, k + 1) / 2
  }

  lemma PowValues()
    ensures Pow2(15) == 0x8000 && Pow2(16) == 0x1_0000 && Pow2(31) == 0x8000_0000 && Pow2(32) == W32
  {
    assert Pow2(8) == 256;
    Pow2Add(8, 7);
    Pow2Add(16, 15);
  }

  lemma {:induction false} TopBelow(v: nat, k: nat)
    requires k <= 32 && v < 0x8000_0000
    ensures 2 * Top(v, k) < Pow2(k) || Top(v, k) == 0
    decreases 32 - k
  {
    if k < 32 {
      TopBelow(v, k + 1);
    } else {
      PowValues();
    }
  }

  /** The bits of a frame, first to last. */
  function FrameBits(v: nat): (b: seq<bool>)
    ensures |b| == 32
  {
    seq(32, k requires 0 <= k < 32 => Top(v, k + 1) % 2 == 1)
  }

  /** Part way through a frame. */
  predicate Within(d: Decoder, v: nat, k: nat, mem: Registers) {
    && 1 <= k < 32 && d.synched && !d.failed && d.mem == mem && d.consecutive < k
    && d.datareg == W32 - Pow2(k) + Top(v, k) && d.halfword == (if k < 16 then 0 else k - 15)
  }

  /** What the shift register reads after one more bit. */
  lemma Shifts(v: nat, k: nat)
    requires 1 <= k <= 32 && v < 0x8000_0000
    ensures Pow2(k) <= W32 && 0 <= W32 - Pow2(k) + Top(v, k) < W32
    ensures k >= 2 ==> (2 * (W32 - Pow2(k - 1) + Top(v, k - 1)) + Top(v, k) % 2) % W32 == W32 - Pow2(k) + Top(v, k)
    ensures k == 1 ==> (2 * AllOnes + Top(v, k) % 2) % W32 == W32 - Pow2(k) + Top(v, k) && Top(v, k) == 0
  {
    PowValues();
    Pow2Mono(k, 32);
    TopBelow(v, k);
    if k >= 2 {
      TopBelow(v, k - 1);
      assert Top(v, k - 1) == Top(v, k) / 2;
      ShiftsOnce(Pow2(k - 1), Top(v, k));
    } else {
      Wraps(W32 - 2);
    }
  }

  lemma ShiftsOnce(p: nat, t: nat)
    requires 2 * p <= W32 && t < 2 * p
    ensures (2 * (W32 - p + t / 2) + t % 2) % W32 == W32 - 2 * p + t
  {
    Wraps(W32 - 2 * p + t);
  }

  lemma Wraps(x: nat)
    requires x < W32
    ensures (W32 + x) % W32 == x
  {
    DivModUnique(W32 + x, W32, 1, x);
  }

  /** The sixteenth bit of a frame is the first to bring its leading zero to bit fifteen. */
  lemma HalfwayAt(v: nat, k: nat)
    requires 1 <= k <= 16 && v < 0x8000_0000
    ensures (W32 - Pow2(k) + Top(v, k)) / 0x8000 % 2 == 0 <==> k == 16
  {
    PowValues();
    TopBelow(v, k);
    var x := W32 - Pow2(k) + Top(v, k);
    if k < 16 {
      Pow2Mono(k, 15);
      DivModUnique(x, 0x8000, 0x1_ffff, x - 0x8000 * 0x1_ffff);
    } else {
      DivModUnique(x, 0x8000, 0x1_fffe, Top(v, k));
    }
  }

  /** A bit that ends nothing, as the shift register sees it. */
  lemma Passes(d: Decoder, data: bool, x: nat)
    requires d.synched && !d.failed && d.halfword < 16 && x == (2 * d.datareg + Bit(data)) % W32 && (data ==> d.consecutive < 32)
    ensures var e := Clocked(d, data);
            && e.synched && !e.failed && e.mem == d.mem && e.datareg == x && e.consecutive == (if data then d.consecutive + 1 else 0)
            && e.halfword == if d.halfword == 0 then (if x / 0x8000 % 2 == 0 then 1 else 0) else d.halfword + 1
  {
  }

  lemma FirstBit(d: Decoder, v: nat, k: nat)
    requires Ready(d) && v < 0x8000_0000 && k == 1
    ensures Within(Clocked(d, FrameBits(v)[k - 1]), v, k, d.mem)
  {
    var bit, x := FirstRead(v, k);
    FirstPasses(d, bit, x, k);
  }

  lemma FirstRead(v: nat, k: nat) returns (bit: bool, x: nat)
    requires v < 0x8000_0000 && k == 1
    ensures bit == FrameBits(v)[k - 1] && !bit && x == W32 - Pow2(k) + Top(v, k)
    ensures x == (2 * AllOnes + Bit(bit)) % W32 && x / 0x8000 % 2 == 1
  {
    Shifts(v, k);
    HalfwayAt(v, k);
    bit, x := FrameBits(v)[k - 1], W32 - Pow2(k) + Top(v, k);
    assert bit == (Top(v, k - 1 + 1) % 2 == 1);
  }

  lemma FirstPasses(d: Decoder, bit: bool, x: nat, k: nat)
    requires Ready(d) && !bit && x == (2 * AllOnes + Bit(bit)) % W32 && x / 0x8000 % 2 == 1
    ensures var e := Clocked(d, bit);
            e.synched && !e.failed && e.mem == d.mem && e.datareg == x && e.consecutive == 0 && e.halfword == 0
  {
    Passes(d, bit, x);
  }

  lemma InnerBit(d: Decoder, v: nat, k: nat, mem: Registers)
    requires 2 <= k < 32 && Within(d, v, k - 1, mem) && v < 0x8000_0000
    ensures Within(Clocked(d, FrameBits(v)[k - 1]), v, k, mem)
  {
    Shifts(v, k);
    if k <= 16 {
      HalfwayAt(v, k);
    }
    assert FrameBits(v)[k - 1] == (Top(v, k - 1 + 1) % 2 == 1);
    Passes(d, FrameBits(v)[k - 1], W32 - Pow2(k) + Top(v, k));
  }

  lemma LastBit(d: Decoder, v: nat, mem: Registers, k: nat)
    requires k == 32 && Within(d, v, k - 1, mem) && v < 0x8000_0000
    ensures var e := Clocked(d, FrameBits(v)[k - 1]);
            if Fails(v) then e.failed && e.mem == mem else Ready(e) && e.mem == Effect(mem, v)
  {
    PowValues();
    Shifts(v, k);
  }

  lemma {:induction false} FirstBits(d: Decoder, v: nat, k: nat)
    requires Ready(d) && v < 0x8000_0000 && 1 <= k < 32
    ensures Within(Bits(d, FrameBits(v)[..k]), v, k, d.mem)
  {
    var bits := FrameBits(v);
    assert bits[..k][..k - 1] == bits[..k - 1];
    if k == 1 {
      FirstBit(d, v, k);
      assert bits[..0] == [];
    } else {
      FirstBits(d, v, k - 1);
      InnerBit(Bits(d, bits[..k - 1]), v, k, d.mem);
    }
  }

  /** Any 32-bit frame, whatever its bits, once its leading zero has come: nothing in it is taken for a new
      preamble.  The registers change exactly as its fields say and the slave is ready for the next, if
      and only if it is not a write to this device with the second turnaround bit set; that one ends the
      program, with the registers as they were. */
  lemma FrameTaken(d: Decoder, v: nat)
    requires Ready(d) && v < 0x8000_0000
    ensures var e := Bits(d, FrameBits(v));
            && (Ready(e) && e.mem == Effect(d.mem, v) <==> !Fails(v))
            && (Fails(v) ==> e.failed && e.mem == d.mem)
  {
    var bits := FrameBits(v);
    FirstBits(d, v, |bits| - 1);
    LastBit(Bits(d, bits[..|bits| - 1]), v, d.mem, |bits|);
  }

  /** For instance a write of 0x1234 to register 0 with a turnaround of two ones. */
  lemma BadTurnaround(d: Decoder)
    requires Ready(d)
    ensures Bits(d, FrameBits(0x5083_1234)).failed
  {
    FrameTaken(d, 0x5083_1234);
  }

  /** A write frame: start, write, address of the device, register, turnaround, data. */
  function WriteFrame(phy: nat, reg: nat, data: nat): nat {
    0x5000_0000 + 0x80_0000 * phy + 0x4_0000 * reg + 0x2_0000 + data
  }

  /** A write to this device sets exactly the one register, and a write to another sets none. */
  lemma WriteFrameSets(d: Decoder, phy: nat, reg: nat, data: nat)
    requires Ready(d) && phy < 32 && reg < 32 && data < 0x1_0000
    ensures var v := WriteFrame(phy, reg, data);
            var e := Bits(d, FrameBits(v));
            Ready(e) && e.mem == (if phy == PhyAddr then d.mem[reg := data] else d.mem)
  {
    var v := WriteFrame(phy, reg, data);
    WriteFields(phy, reg, data);
    FrameTaken(d, v);
  }

  lemma WriteFields(phy: nat, reg: nat, data: nat)
    requires phy < 32 && reg < 32 && data < 0x1_0000
    ensures var v := WriteFrame(phy, reg, data);
            v < 0x8000_0000 && Op(v) == 5 && Phy(v) == phy && Reg(v) == reg && Data(v) == data && v / 0x1_0000 % 2 == 0
  {
    var v := WriteFrame(phy, reg, data);
    DivModUnique(v, 0x1_0000, 0x5000 + 0x80 * phy + 4 * reg + 2, data);
    DivModUnique(v, 0x4_0000, 0x1400 + 32 * phy + reg, 0x2_0000 + data);
    DivModUnique(0x1400 + 32 * phy + reg, 32, 0xa0 + phy, reg);
    DivModUnique(v, 0x80_0000, 0xa0 + phy, 0x4_0000 * reg + 0x2_0000 + data);
    DivModUnique(0xa0 + phy, 32, 5, phy);
    DivModUnique(v, 0x1000_0000, 5, 0x80_0000 * phy + 0x4_0000 * reg + 0x2_0000 + data);
  }

  // ---------------------------------------------------------------------------------------------
  // The preamble

  function Ones(n: nat): seq<bool> {
    seq(n, _ => true)
  }

  lemma {:induction false} OnesCount(d: Decoder, n: nat)
    requires d.consecutive == 0 && !d.synched && !d.failed
    ensures var e := Bits(d, Ones(n));
            && e.consecutive == (if n < 128 then n else 128) && e.synched == (n > 32) && !e.failed
            && (n > 32 ==> Ready(e)) && e.mem == d.mem
  {
    if n > 0 {
      assert Ones(n)[..n - 1] == Ones(n - 1);
      OnesCount(d, n - 1);
      var e := Bits(d, Ones(n - 1));
      if n > 33 {
        IdleStaysReady(e);
      }
    }
  }

  /** A slave that has just lost synchronisation finds it again after a preamble of n ones if and only if n
      is at least 33: one more than the standard's preamble. */
  lemma PreambleSyncs(d: Decoder, n: nat)
    requires d.consecutive == 0 && !d.synched && !d.failed
    ensures var e := Bits(d, Ones(n)); (Ready(e) <==> n >= 33) && e.mem == d.mem
  {
    OnesCount(d, n);
  }

  /** Ones between frames leave the slave ready. */
  lemma IdleStaysReady(d: Decoder)
    requires Ready(d)
    ensures Ready(Clocked(d, true)) && Clocked(d, true).mem == d.mem
  {
    DivModUnique(2 * AllOnes + 1, W32, 1, AllOnes);
  }

  lemma {:induction false} BitsConcat(d: Decoder, s: seq<bool>, t: seq<bool>)
    ensures Bits(d, s + t) == Bits(Bits(d, s), t)
  {
    if t == [] {
      assert s + t == s;
    } else {
      var n := |t| - 1;
      assert (s + t)[..|s + t| - 1] == s + t[..n];
      BitsConcat(d, s, t[..n]);
    }
  }

  /** Call by call and end to end: at any steady period of at least four calls, whatever the data line does
      between rising edges, a preamble of at least 33 ones and a write frame set exactly the addressed
      register of this device, and none of another's. */
  lemma WriteReaches(s: Slave, period: nat, ps: seq<Period>, n: nat, phy: nat, reg: nat, data: nat)
    requires Steady(s, period) && PeriodsOk(ps, period)
    requires s.dec.consecutive == 0 && !s.dec.synched && !s.dec.failed
    requires n >= 33 && phy < 32 && reg < 32 && data < 0x1_0000
    requires Sampled(ps) == Ones(n) + FrameBits(WriteFrame(phy, reg, data))
    ensures var t := Periods(s, ps);
            Ready(t.dec) && Steady(t, period) && t.dec.mem == (if phy == PhyAddr then s.dec.mem[reg := data] else s.dec.mem)
  {
    PeriodsSample(s, period, ps);
    BitsConcat(s.dec, Ones(n), FrameBits(WriteFrame(phy, reg, data)));
    PreambleSyncs(s.dec, n);
    WriteFrameSets(Bits(s.dec, Ones(n)), phy, reg, data);
  }

  /** In reset the slave forgets its synchronisation, whatever it was doing, and keeps its registers. */
  lemma ResetUnsynchs(s: Slave, clk: bool)
    requires !s.dec.failed
    ensures var d := Reset(s, clk).dec; d.consecutive == 0 && !d.synched && !d.failed && d.mem == s.dec.mem
  {
  }

  /** A rising edge that comes less than four calls after the one before takes the synchronisation away. */
  lemma TooFast(s: Slave, data: bool)
    requires !s.dec.failed && !s.lastClk && s.tickCount + 1 < TicksPerClock
    ensures var d := Call(s, true, data).dec; !d.synched && d.consecutive == 0 && d.mem == s.dec.mem
  {
  }

  /** So does a period that differs from the one before. */
  lemma Uneven(s: Slave, data: bool)
    requires !s.dec.failed && !s.lastClk && s.tickCount + 1 != s.ticksPerClock
    ensures var d := Call(s, true, data).dec; !d.synched && d.consecutive == 0 && d.mem == s.dec.mem
  {
  }

  // ---------------------------------------------------------------------------------------------
  // Reads

  /** The answer register after k falling edges. */
  function Falls(outreg: nat, k: nat): nat {
    if k == 0 then outreg else (2 * Falls(outreg, k - 1) + 1) % W32
  }

  lemma {:induction false} FallsIs(outreg: nat, k: nat)
    requires outreg < W32
    ensures Falls(outreg, k) == (Pow2(k) * (outreg + 1) - 1) % W32
  {
    if k == 0 {
      SmallMod(outreg, W32);
    } else {
      FallsIs(outreg, k - 1);
      var x := Pow2(k - 1) * (outreg + 1) - 1;
      Doubled(Pow2(k - 1), outreg + 1);
      ModMultiple(2 * (x % W32) + 1, W32, 2 * (x / W32));
    }
  }

  /** A register goes out most significant bit first, one bit per falling edge, and ones after it. */
  lemma ReadGoesOut(value: nat, k: nat)
    ensures Falls(Loaded(value), k) / 0x4000_0000 % 2 == if k < 16 then value % 0x1_0000 / Pow2(15 - k) % 2 else 1
  {
    var v := value % 0x1_0000;
    FallsIs(Loaded(value), k);
    assert Loaded(value) + 1 == 0x8000_0000 + 0x8000 * (v + 1);
    if k < 16 {
      FirstSixteen(v, k);
    } else {
      LaterOnes(v, k);
    }
  }

  lemma FirstSixteen(value: nat, k: nat)
    requires k < 16
    ensures (Pow2(k) * (0x8000_0000 + 0x8000 * (value + 1)) - 1) % W32 / 0x4000_0000 % 2 == value / Pow2(15 - k) % 2
  {
    PowValues();
    Pow2Add(k, 15 - k);
    BitOut(value, Pow2(k), Pow2(15 - k));
    BitThirty(Pow2(k) * (0x8000_0000 + 0x8000 * (value + 1)) - 1);
  }

  lemma LaterOnes(value: nat, k: nat)
    requires k >= 16
    ensures (Pow2(k) * (0x8000_0000 + 0x8000 * (value + 1)) - 1) % W32 / 0x4000_0000 % 2 == 1
  {
    PowValues();
    Pow2Add(16, k - 16);
    OnesLater(value, Pow2(k - 16), Pow2(k));
  }

  lemma OnesLater(value: nat, p: nat, q: nat)
    requires p > 0 && q == 0x1_0000 * p
    ensures (q * (0x8000_0000 + 0x8000 * (value + 1)) - 1) % W32 / 0x4000_0000 % 2 == 1
  {
    OnesOut(value, p);
    BitThirty(q * (0x8000_0000 + 0x8000 * (value + 1)) - 1);
  }

  lemma BitThirty(n: int)
    requires n >= 0
    ensures n % W32 / 0x4000_0000 % 2 == n / 0x4000_0000 % 2
  {
    var q, r := n / W32, n % W32;
    var h := r / 0x4000_0000;
    DivModUnique(n, 0x4000_0000, 4 * q + h, r % 0x4000_0000);
    ModMultiple(h, 2, 2 * q);
  }

  lemma BitOut(value: nat, p: nat, q: nat)
    requires p > 0 && q > 0 && p * q == 0x8000
    ensures var n := p * (0x8000_0000 + 0x8000 * (value + 1)) - 1; n >= 0 && n / 0x4000_0000 % 2 == value / q % 2
  {
    var n := p * (0x8000_0000 + 0x8000 * (value + 1)) - 1;
    var u, r := value / q, value % q;
    Spread(p, q, u, r);
    MulMono(p, 0, r);
    MulMono(p, r + 1, q);
    assert n == 0x4000_0000 * (2 * p + u) + 0x8000 * (p * (r + 1)) - 1;
    assert 0 <= 0x8000 * (p * (r + 1)) - 1 < 0x4000_0000;
    DivModUnique(n, 0x4000_0000, 2 * p + u, 0x8000 * (p * (r + 1)) - 1);
  }

  lemma Spread(p: int, q: int, u: int, r: int)
    ensures p * (0x8000_0000 + 0x8000 * (q * u + r + 1)) == 0x8000_0000 * p + 0x8000 * (p * q * u) + 0x8000 * (p * (r + 1))
    ensures p * (r + 1) == p * r + p
  {
    assert p * (q * u + (r + 1)) == p * q * u + p * (r + 1);
  }

  lemma OnesOut(value: nat, p: nat)
    requires p > 0
    ensures var n := 0x1_0000 * p * (0x8000_0000 + 0x8000 * (value + 1)) - 1; n >= 0 && n / 0x4000_0000 % 2 == 1
  {
    var m := p * (0x1_0000 + value + 1);
    assert 0x1_0000 * p * (0x8000_0000 + 0x8000 * (value + 1)) == 0x8000_0000 * m;
    MulMono(p, 1, 0x1_0000 + value + 1);
    DivModUnique(0x8000_0000 * m - 1, 0x4000_0000, 2 * m - 1, 0x3fff_ffff);
  }

  /** A frame that reads a register here loads it for the answer with its sixteenth bit. */
  lemma ReadLoads(s: Slave, period: nat, v: nat, mem: Registers, k: nat)
    requires k == 16 && Steady(s, period) && v < 0x8000_0000 && Within(s.dec, v, k - 1, mem)
    requires Op(v) == 6 && Phy(v) == PhyAddr
    ensures Call(s, true, FrameBits(v)[k - 1]).outreg == Loaded(mem[Reg(v)])
  {
    var bit := FrameBits(v)[k - 1];
    var after := Clocked(s.dec, bit);
    InnerBit(s.dec, v, k, mem);
    HalfWithin(after, v, k, mem);
    HalfTaken(s, period, bit, after, Reg(v), mem);
  }

  /** The clock falls once in a period, and that is when the answer register moves. */
  lemma {:induction false} HoldMoves(s: Slave, clks: seq<bool>, datas: seq<bool>)
    requires |clks| == |datas| && s.lastClk && Stable(s.dec) && !s.dec.failed && HighThenLow(clks)
    ensures Hold(s, clks, datas).outreg == if clks == [] || clks[|clks| - 1] then s.outreg else (2 * s.outreg + 1) % W32
  {
    if clks != [] {
      var n := |clks| - 1;
      HoldMoves(s, clks[..n], datas[..n]);
      HoldKeeps(s, clks[..n], datas[..n]);
      assert n > 0 && clks[n] ==> clks[n - 1];
    }
  }

  lemma PeriodMoves(s: Slave, period: nat, p: Period, outreg: nat)
    requires Steady(s, period) && PeriodOk(p, period) && !s.dec.failed && !Clocked(s.dec, p.data).failed
    requires Call(s, true, p.data).outreg == outreg
    ensures Through(s, p).outreg == (2 * outreg + 1) % W32
  {
    ClockedStable(s.dec, p.data);
    HoldMoves(Call(s, true, p.data), p.clks, p.datas);
  }

  /** In the second half of a frame nothing is loaded. */
  lemma NothingLoaded(s: Slave, v: nat, k: nat, mem: Registers, bit: bool)
    requires 16 <= k <= 31 && Within(s.dec, v, k, mem) && !s.lastClk
    ensures Call(s, true, bit).outreg == s.outreg
  {
  }

  /** The answer register at the rising edge of period m, and at its end. */
  function RisingOut(s: Slave, ps: seq<Period>, m: nat): nat
    requires m < |ps|
  {
    Call(Periods(s, ps[..m]), true, ps[m].data).outreg
  }

  function EndOut(s: Slave, ps: seq<Period>, m: nat): nat
    requires m < |ps|
  {
    Periods(s, ps[..m + 1]).outreg
  }

  /** The same of a slave t about to go through period m. */
  predicate Outs(s: Slave, ps: seq<Period>, m: nat, t: Slave) {
    && 0 < m < |ps| && EndOut(s, ps, m - 1) == t.outreg && RisingOut(s, ps, m) == Call(t, true, ps[m].data).outreg
    && EndOut(s, ps, m) == Through(t, ps[m]).outreg
  }

  /** A steady clock has brought a preamble of n ones and this frame, one bit per period. */
  predicate Framed(s: Slave, period: nat, ps: seq<Period>, n: nat, v: nat) {
    && Steady(s, period) && PeriodsOk(ps, period) && s.dec.consecutive == 0 && !s.dec.synched && !s.dec.failed
    && n >= 33 && v < 0x8000_0000 && Sampled(ps) == Ones(n) + FrameBits(v)
  }

  /** The slave after the preamble and k bits, and the period that brings the next. */
  lemma FramedAt(s: Slave, period: nat, ps: seq<Period>, n: nat, v: nat, k: nat) returns (t: Slave, p: Period)
    requires Framed(s, period, ps, n, v) && 1 <= k <= 31
    ensures |ps| == n + 32 && p == ps[n + k] && p.data == FrameBits(v)[k] && PeriodOk(p, period)
    ensures Within(t.dec, v, k, s.dec.mem) && Steady(t, period) && Outs(s, ps, n + k, t)
  {
    Samples(ps, Ones(n), FrameBits(v), k);
    DecodedAt(s.dec, n, v, k);
    t, p := PeriodAt(s, period, ps, n + k, Ones(n) + FrameBits(v)[..k]);
  }

  lemma DecodedAt(d: Decoder, n: nat, v: nat, k: nat)
    requires d.consecutive == 0 && !d.synched && !d.failed && n >= 33 && v < 0x8000_0000 && 1 <= k <= 31
    ensures Within(Bits(d, Ones(n) + FrameBits(v)[..k]), v, k, d.mem)
  {
    BitsConcat(d, Ones(n), FrameBits(v)[..k]);
    PreambleSyncs(d, n);
    FirstBits(Bits(d, Ones(n)), v, k);
  }

  lemma PeriodAt(s: Slave, period: nat, ps: seq<Period>, m: nat, bits: seq<bool>) returns (t: Slave, p: Period)
    requires Steady(s, period) && PeriodsOk(ps, period) && m < |ps| && bits == Sampled(ps[..m])
    requires !s.dec.failed && !Bits(s.dec, bits).failed
    ensures p == ps[m] && PeriodOk(p, period) && (m > 0 ==> Outs(s, ps, m, t))
    ensures t.dec == Bits(s.dec, bits) && Steady(t, period)
  {
    t, p := Periods(s, ps[..m]), ps[m];
    PeriodsSample(s, period, ps[..m]);
    PeriodsNext(s, ps, m);
  }

  lemma Samples(ps: seq<Period>, ones: seq<bool>, bits: seq<bool>, k: nat)
    requires Sampled(ps) == ones + bits && k < |bits|
    ensures |ps| == |ones| + |bits| && ps[|ones| + k].data == bits[k] && Sampled(ps[..|ones| + k]) == ones + bits[..k]
  {
    var n, all := |ones|, Sampled(ps);
    assert |all| == |ones + bits|;
    assert all[n + k] == (ones + bits)[n + k];
    assert Sampled(ps[..n + k]) == all[..n + k];
  }

  lemma PeriodsNext(s: Slave, ps: seq<Period>, m: nat)
    requires m < |ps|
    ensures Periods(s, ps[..m + 1]) == Through(Periods(s, ps[..m]), ps[m])
  {
    assert ps[..m + 1][..m] == ps[..m];
  }

  lemma AnswerStarts(t: Slave, period: nat, p: Period, v: nat, mem: Registers, k: nat)
    requires k == 16 && Steady(t, period) && PeriodOk(p, period) && v < 0x8000_0000 && Within(t.dec, v, k - 1, mem)
    requires p.data == FrameBits(v)[k - 1] && Op(v) == 6 && Phy(v) == PhyAddr
    ensures Call(t, true, p.data).outreg == Loaded(mem[Reg(v)])
    ensures Through(t, p).outreg == (2 * Loaded(mem[Reg(v)]) + 1) % W32
  {
    ReadLoads(t, period, v, mem, k);
    InnerBit(t.dec, v, k, mem);
    PeriodMoves(t, period, p, Loaded(mem[Reg(v)]));
  }

  lemma AnswerMoves(t: Slave, period: nat, p: Period, v: nat, mem: Registers, k: nat)
    requires 17 <= k <= 31 && Steady(t, period) && PeriodOk(p, period) && v < 0x8000_0000 && Within(t.dec, v, k - 1, mem)
    requires p.data == FrameBits(v)[k - 1]
    ensures Call(t, true, p.data).outreg == t.outreg
    ensures Through(t, p).outreg == (2 * t.outreg + 1) % W32
  {
    NothingLoaded(t, v, k - 1, mem, p.data);
    InnerBit(t.dec, v, k, mem);
    PeriodMoves(t, period, p, t.outreg);
  }

  lemma AnswerBit(s: Slave, period: nat, ps: seq<Period>, n: nat, v: nat, m: nat)
    requires Framed(s, period, ps, n, v) && Op(v) == 6 && Phy(v) == PhyAddr && n + 15 <= m < n + 31
    ensures |ps| == n + 32 && EndOut(s, ps, m) == (2 * RisingOut(s, ps, m) + 1) % W32
    ensures RisingOut(s, ps, m) == if m == n + 15 then Loaded(s.dec.mem[Reg(v)]) else EndOut(s, ps, m - 1)
  {
    var t, p := FramedAt(s, period, ps, n, v, m - n);
    AnswerStep(t, period, p, v, s.dec.mem, m - n + 1);
  }

  lemma AnswerStep(t: Slave, period: nat, p: Period, v: nat, mem: Registers, k: nat)
    requires 16 <= k <= 31 && Steady(t, period) && PeriodOk(p, period) && v < 0x8000_0000 && Within(t.dec, v, k - 1, mem)
    requires p.data == FrameBits(v)[k - 1] && Op(v) == 6 && Phy(v) == PhyAddr
    ensures Call(t, true, p.data).outreg == if k == 16 then Loaded(mem[Reg(v)]) else t.outreg
    ensures Through(t, p).outreg == (2 * Call(t, true, p.data).outreg + 1) % W32
  {
    if k == 16 {
      AnswerStarts(t, period, p, v, mem, k);
    } else {
      AnswerMoves(t, period, p, v, mem, k);
    }
  }

  lemma {:induction false} AnswerAt(s: Slave, period: nat, ps: seq<Period>, n: nat, v: nat, j: nat, m: nat)
    requires Framed(s, period, ps, n, v) && Op(v) == 6 && Phy(v) == PhyAddr && j < 16 && m == n + 15 + j
    ensures |ps| == n + 32 && RisingOut(s, ps, m) == Falls(Loaded(s.dec.mem[Reg(v)]), j)
  {
    AnswerBit(s, period, ps, n, v, m);
    if j > 0 {
      AnswerAt(s, period, ps, n, v, j - 1, m - 1);
      AnswerBit(s, period, ps, n, v, m - 1);
    }
  }

  /** Call by call and end to end: at any steady period of at least four calls, after a preamble of at least 33 ones, a
      frame that reads a register here is answered with that register, most significant bit first, one bit per rising
      edge from the second turnaround bit on. */
  lemma ReadAnswered(s: Slave, period: nat, ps: seq<Period>, n: nat, v: nat, j: nat)
    requires Framed(s, period, ps, n, v) && Op(v) == 6 && Phy(v) == PhyAddr && j < 16
    ensures |ps| == n + 32
    ensures var t := Call(Periods(s, ps[..n + 15 + j]), true, ps[n + 15 + j].data);
            Answer(t, true) <==> s.dec.mem[Reg(v)] % 0x1_0000 / Pow2(15 - j) % 2 == 1
  {
    AnswerAt(s, period, ps, n, v, j, n + 15 + j);
    ReadGoesOut(s.dec.mem[Reg(v)], j);
  }

  lemma HalfWithin(d: Decoder, v: nat, k: nat, mem: Registers)
    requires k == 16 && v < 0x8000_0000 && Within(d, v, k, mem)
    ensures d.halfword == 1 && d.mem == mem
    ensures d.datareg / 0x1000 % 16 == Op(v) && d.datareg / 0x80 % 32 == Phy(v) && d.datareg / 4 % 32 == Reg(v)
  {
    HalfValue(v, k);
    HalfFields(v, d.datareg);
  }

  lemma HalfValue(v: nat, k: nat)
    requires k == 16
    ensures W32 - Pow2(k) + Top(v, k) == W32 - 0x1_0000 + v / 0x1_0000
  {
    PowValues();
    TopIs(v, k);
  }

  lemma HalfTaken(s: Slave, period: nat, data: bool, after: Decoder, reg: nat, mem: Registers)
    requires Steady(s, period) && !s.dec.failed && s.dec.synched && s.dec.halfword == 0 && s.dec.consecutive < 32
    requires after == Clocked(s.dec, data) && after.halfword == 1
    requires after.datareg / 0x1000 % 16 == 6 && after.datareg / 0x80 % 32 == PhyAddr
    requires after.datareg / 4 % 32 == reg && after.mem == mem
    ensures Call(s, true, data).outreg == Loaded(mem[reg])
  {
  }

  /** The half-way register has the fields of the frame, where the code looks for them. */
  lemma HalfFields(v: nat, x: nat)
    requires v < 0x8000_0000 && x == W32 - 0x1_0000 + v / 0x1_0000
    ensures x / 0x1000 % 16 == Op(v) && x / 0x80 % 32 == Phy(v) && x / 4 % 32 == Reg(v)
  {
    var t := v / 0x1_0000;
    DivDiv(v, 0x1_0000, 0x1000);
    DivDiv(v, 0x1_0000, 0x80);
    DivDiv(v, 0x1_0000, 4);
    HighOnes(t, 0x1000, 16, 0xffff);
    HighOnes(t, 0x80, 32, 0xf_fff0);
    HighOnes(t, 4, 32, 0x1ff_fe00);
  }

  /** Bits above a field do not matter to it. */
  lemma HighOnes(t: nat, c: nat, w: nat, k: nat)
    requires c > 0 && w > 0 && c * (w * k) == W32 - 0x1_0000
    ensures (W32 - 0x1_0000 + t) / c % w == t / c % w
  {
    Distribute(c, w * k, t / c);
    DivModUnique(c * (w * k) + t, c, w * k + t / c, t % c);
    ModMultiple(t / c, w, k);
  }

  lemma Distribute(c: int, x: int, y: int)
    ensures c * (x + y) == c * x + c * y
  {
  }

  lemma {:induction false} TopIs(v: nat, k: nat)
    requires k <= 32
    ensures Top(v, k) == v / Pow2(32 - k)
    decreases 32 - k
  {
    if k < 32 {
      TopIs(v, k + 1);
      DivDiv(v, Pow2(32 - (k + 1)), 2);
    }
  }
}

/** ENETCTRLSIM as the object it is. */
module MdioSim {
  import opened Mdio

  class EnetCtrlSim {
    var consecutive: nat
    var synched: bool
    var halfword: nat
    var datareg: nat
    var mem: Registers
    var failed: bool  // an assert has ended the program
    var lastClk: bool
    var tickCount: nat
    var ticksPerClock: nat
    var outreg: nat

    function Dec(): Decoder
      reads this`consecutive, this`synched, this`halfword, this`datareg, this`mem, this`failed
    {
      Decoder(consecutive, synched, halfword, datareg, mem, failed)
    }

    function State(): Slave
      reads this
    {
      Slave(Dec(), lastClk, tickCount, ticksPerClock, outreg)
    }

    constructor ()
      ensures State() == Slave(Decoder(0, false, 0, AllOnes, seq(32, _ => 0), false), false, 0, 0, AllOnes)
    {
      consecutive, synched, halfword, datareg, failed := 0, false, 0, AllOnes, false;
      mem := seq(32, _ => 0);
      lastClk, tickCount, ticksPerClock, outreg := false, 0, 0, AllOnes;
    }

    /** One call of operator(), in reset or out of it, and the bit it answers. */
    method Operator(inReset: bool, clk: bool, data: bool) returns (out: bool)
      requires !failed
      modifies this
      ensures State() == if inReset then Reset(old(State()), clk) else Call(old(State()), clk, data)
      ensures !failed ==> out == (inReset || Answer(State(), data))
    {
      var posedge, negedge := clk && !lastClk, !clk && lastClk;
      tickCount := tickCount + 1;
      if inReset {
        consecutive, synched, datareg, lastClk := 0, false, AllOnes, clk;
        return true;
      }
      if posedge {
        CountOnes(data);
      }
      if consecutive > 32 {
        synched := true;
        halfword := 0;
        datareg := AllOnes;
      }
      if posedge && synched {
        TakeBit(data);
      } else if negedge {
        outreg := (2 * outreg + 1) % W32;
      }
      lastClk := clk;
      return data && outreg / 0x4000_0000 % 2 == 1;
    }

    method CountOnes(data: bool)
      modifies this`consecutive, this`synched, this`ticksPerClock, this`tickCount
      ensures Dec() == Count(old(Dec()), data, old(tickCount) == old(ticksPerClock) && old(ticksPerClock) >= TicksPerClock)
      ensures ticksPerClock == old(tickCount) && tickCount == 0
    {
      if data && consecutive < 128 {
        consecutive := consecutive + 1;
      } else if !data {
        consecutive := 0;
      }
      if tickCount != ticksPerClock || ticksPerClock < TicksPerClock {
        consecutive := 0;
        synched := false;
      }
      ticksPerClock := tickCount;
      tickCount := 0;
    }

    method TakeBit(data: bool)
      requires synched
      modifies this`datareg, this`halfword, this`mem, this`failed, this`outreg
      ensures Dec() == Shift(old(Dec()), data)
      ensures outreg == if ReadsHere(old(Dec()), Dec()) then Loaded(mem[datareg / 4 % 32]) else old(outreg)
    {
      datareg := (2 * datareg + Bit(data)) % W32;
      if halfword == 0 && datareg / 0x8000 % 2 == 0 {
        halfword := 1;
        if datareg / 0x1000 % 16 == 6 && datareg / 0x80 % 32 == PhyAddr {
          outreg := Loaded(mem[datareg / 4 % 32]);
        }
      } else if 0 < halfword < 16 {
        halfword := halfword + 1;
      } else if halfword != 0 {
        if Op(datareg) == 5 && Phy(datareg) == PhyAddr {
          if datareg / 0x1_0000 % 2 == 1 {
            failed := true;
            return;
          }
          mem := mem[Reg(datareg) := Data(datareg)];
        }
        halfword := 0;
        datareg := AllOnes;
      }
    }
  }
}
