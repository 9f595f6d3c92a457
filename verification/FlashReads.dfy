/** Every read command of the flash device brings out the memory, byte after byte from the address it was given. */
module FlashReads {
  import opened Arith
  import opened FlashChip
  import opened FlashWire
  import opened FlashSession
  import opened FlashPort

  // ---------------------------------------------------------------------------------------------
  // At byte boundaries, for all of them

  /** The control state after the byte boundaries from one clock count to another, with these input registers. */
  function Bounds(c: Control, rs: nat -> nat, from: nat, to: nat): Control
    requires from <= to
  {
    if to <= from + 7 then c else Data(Bounds(c, rs, from, to - 8), to, rs(to))
  }

  /** The clock count at which the first byte of memory is put on its way. */
  function FirstOut(s: State): nat {
    if s.FastRead? || s.DualReadCmd? || s.QuadReadCmd? then 40 else 32
  }

  predicate ReadCommand(s: State) {
    s.SlowRead? || s.FastRead? || s.DualReadCmd? || s.QuadReadCmd?
  }

  /** Up to its address nothing moves. */
  lemma BeforeAddress(c: Control, rs: nat -> nat)
    requires ReadCommand(c.state)
    ensures Bounds(c, rs, 8, 24) == c
  {
    assert Bounds(c, rs, 8, 16) == Data(Bounds(c, rs, 8, 8), 16, rs(16)) == c;
  }

  /** Once it has the address, each boundary from the first on sends the next byte of memory. */
  lemma {:induction false} Walks(c: Control, rs: nat -> nat, a: nat, j: nat)
    requires ReadCommand(c.state) && !c.status.wip && a == Address(rs(32))
    ensures var n := FirstOut(c.state) - 8 + 8 * j;
            var d := Bounds(c, rs, 8, n);
            && d.state == c.state && d.status == c.status && d.mode == c.mode
            && ReadAddr(d, n + 8, rs(n + 8)) == a + j
  {
    if j == 0 {
      WalkStarts(c, rs, a);
    } else {
      Walks(c, rs, a, j - 1);
      var n := FirstOut(c.state) - 8 + 8 * (j - 1);
      WalkOn(Bounds(c, rs, 8, n), n + 8, rs(n + 8), a + j - 1);
      assert Bounds(c, rs, 8, n + 8) == Data(Bounds(c, rs, 8, n), n + 8, rs(n + 8));
    }
  }

  lemma WalkStarts(c: Control, rs: nat -> nat, a: nat)
    requires ReadCommand(c.state) && !c.status.wip && a == Address(rs(32))
    ensures var n := FirstOut(c.state) - 8;
            var d := Bounds(c, rs, 8, n);
            d.state == c.state && d.status == c.status && d.mode == c.mode && ReadAddr(d, n + 8, rs(n + 8)) == a
  {
    BeforeAddress(c, rs);
    if FirstOut(c.state) == 40 {
      assert Bounds(c, rs, 8, 32) == Data(Bounds(c, rs, 8, 24), 32, rs(32));
    }
  }

  lemma WalkOn(c: Control, count: nat, r: nat, a: nat)
    requires ReadCommand(c.state) && !c.status.wip && count >= FirstOut(c.state) && count % 8 == 0
    requires ReadAddr(c, count, r) == a
    ensures var d := Data(c, count, r);
            d.state == c.state && d.status == c.status && d.mode == c.mode && d.addr == a + 1
  {
  }

  /** A read command sends the memory from its address on. */
  lemma ReadsOut(mem: Memory, c: Control, rs: nat -> nat, a: nat, j: nat)
    requires ReadCommand(c.state) && !c.status.wip && a == Address(rs(32))
    ensures var n := FirstOut(c.state) + 8 * j;
            DataOut(mem, Bounds(c, rs, 8, n - 8), n, rs(n)) == [At(mem, a + j)]
  {
    Walks(c, rs, a, j);
    var n := FirstOut(c.state) + 8 * j;
    ModMultiple(FirstOut(c.state), 8, j);
    Sends(mem, Bounds(c, rs, 8, n - 8), n, rs(n), a + j);
  }

  lemma Sends(mem: Memory, c: Control, count: nat, r: nat, a: nat)
    requires ReadCommand(c.state) && !c.status.wip && count >= FirstOut(c.state) && count % 8 == 0 && ReadAddr(c, count, r) == a
    ensures DataOut(mem, c, count, r) == [At(mem, a)]
  {
  }

  /** A continued read has its address after 24 clocks, and sends the memory from there on. */
  lemma {:induction false} ContinuesOut(mem: Memory, c: Control, rs: nat -> nat, j: nat)
    requires (c.state.DualRead? || c.state.QuadRead?) && !c.status.wip
    ensures var n := 32 + 8 * j;
            var d := Bounds(c, rs, 24, n - 8);
            && d.state == c.state && d.status == c.status && d.addr == c.addr + j
            && DataOut(mem, d, n, rs(n)) == [At(mem, c.addr + j)]
  {
    if j > 0 {
      ContinuesOut(mem, c, rs, j - 1);
    }
  }

  /** After a read, chip select leads on to the next one exactly when the mode byte asked for it, on the same wires and
      with an address of 24 bits; otherwise the device takes commands on one wire again. */
  lemma ReadsContinue(c: Control, r: nat)
    requires c.state.DualReadCmd? || c.state.DualRead? || c.state.QuadReadCmd? || c.state.QuadRead?
    requires !c.status.asleep && c.mode == (if c.state.DualReadCmd? || c.state.DualRead? then Dual else Quad)
    ensures if c.modeByte / 16 == 0xa then
              var d := Respond(Finish(c), 24, r);
              d.mode == c.mode && d.addr == r % 0x100_0000 && d.state == (if c.mode == Dual then DualRead else QuadRead)
            else Finish(c).mode == Spi && !Suspended(Finish(c).state)
  {
  }

  // ---------------------------------------------------------------------------------------------
  // Two wires

  /** Four clocks take a byte in on two wires, the high bits first. */
  lemma DualByteIn(r: nat, b: Byte)
    ensures ShiftIn(Dual, ShiftIn(Dual, ShiftIn(Dual, ShiftIn(Dual, r, b / 64), b / 16 % 4), b / 4 % 4), b % 4) == 256 * r + b
  {
    DivDiv(b, 4, 4);
    DivDiv(b, 16, 4);
    SmallMod(b / 64, 4);
    FourPairs(r, b / 64, b / 16 % 4, b / 4 % 4, b % 4, b);
  }

  lemma FourPairs(r: nat, x3: nat, x2: nat, x1: nat, x0: nat, b: nat)
    requires x3 < 4 && x2 < 4 && x1 < 4 && x0 < 4 && b == 4 * (4 * (4 * x3 + x2) + x1) + x0
    ensures ShiftIn(Dual, ShiftIn(Dual, ShiftIn(Dual, ShiftIn(Dual, r, x3), x2), x1), x0) == 256 * r + b
  {
    SmallMod(x3, 4);
    SmallMod(x2, 4);
    SmallMod(x1, 4);
    SmallMod(x0, 4);
  }

  /** Which wires the device drives: none but the second when it talks on one, the two lower ones, or all four. */
  lemma WiresAre(oreg: nat, dat: Pins)
    ensures var w := Wires(Spi, oreg, dat); w % 2 == dat % 2 && w / 2 % 2 == oreg / 256 % 2 && w / 4 == dat / 4
    ensures var w := Wires(Dual, oreg, dat); w % 4 == oreg / 256 % 4 && w / 4 == dat / 4
    ensures Wires(Quad, oreg, dat) == oreg / 256 % 16
  {
    var h, d0, b := dat / 4, dat % 2, oreg / 256 % 2;
    DivDiv(dat, 2, 2);
    var w := Wires(Spi, oreg, dat);
    assert w == 4 * h + 2 * b + d0;
    DivModUnique(w, 4, h, 2 * b + d0);
    DivModUnique(w, 2, 2 * h + b, d0);
    DivModUnique(2 * h + b, 2, h, b);
    DivModUnique(Wires(Dual, oreg, dat), 4, h, oreg / 256 % 4);
  }

  /** Four clocks bring a byte out on two wires, the high bits first. */
  lemma DualBits(o: nat, k: nat)
    requires 1 <= k <= 4
    ensures Pow2(2 * k) * o / 256 % 4 == o % 256 / Pow2(8 - 2 * k) % 4
  {
    Pow2Add(2 * k, 8 - 2 * k);
    assert Pow2(8) == 256;
    Window4(o, Pow2(2 * k), Pow2(8 - 2 * k), Pow2(2 * k - 2));
  }

  lemma Window4(o: nat, p: nat, q: nat, t: nat)
    requires p > 0 && q > 0 && p == 4 * t && p * q == 256
    ensures p * o / 256 % 4 == o % 256 / q % 4
  {
    Cancel(p, q, o);
    var h, v := o / 256, o % 256;
    Regroup(p, q, h);
    DivAdd(v, q, p * h);
    assert p * h == 4 * (t * h);
    ModMultiple(v / q, 4, t * h);
  }

  // ---------------------------------------------------------------------------------------------
  // One wire, over the wires

  /** j bytes into a read from address a over one wire, the next byte loaded. */
  predicate Streaming1(c: Chip, s: State, a: nat, j: nat) {
    && Serial(c) && Quiet(c) && c.ctl.state == s && (s.SlowRead? || s.FastRead?)
    && c.count == FirstOut(s) + 8 * j && c.ctl.addr == a + j + 1 && c.oreg % 256 == At(c.mem, a + j)
  }

  lemma StreamOn1(c: Chip, s: State, a: nat, j: nat)
    requires Streaming1(c, s, a, j) && c.count + 16 < CountWrap
    ensures var d := Byted(Flash(), c, 0);
            Streaming1(d, s, a, j + 1) && d.mem == c.mem && d.oreg / 256 == c.oreg
  {
    DataByte(c, 0);
    WalkOn(c.ctl, c.count + 8, 256 * c.ireg, a + j + 1);
    Loaded(c.oreg, At(c.mem, a + j + 1));
    ModMultiple(c.count, 8, 1);
  }

  /** An address byte of a read command. */
  lemma ReadAddressByte(c: Chip, b: nat) returns (d: Chip)
    requires Serial(c) && Quiet(c) && c.count in {8, 16} && b < 256 && ReadCommand(c.ctl.state)
    ensures d == Byted(Flash(), c, b) && Serial(d) && Quiet(d) && d.count == c.count + 8
    ensures d.ctl == c.ctl && d.mem == c.mem && d.ireg == 256 * c.ireg + b
  {
    d := Byted(Flash(), c, b);
    DataByte(c, b);
  }

  lemma SlowAddressed(c: Chip, a: nat)
    requires Serial(c) && Quiet(c) && c.count == 24 && c.ctl.state.SlowRead? && a < MemBytes
    requires Address(256 * c.ireg + a % 256) == a
    ensures var d := Byted(Flash(), c, a % 256); Streaming1(d, SlowRead, a, 0) && d.mem == c.mem
  {
    DataByte(c, a % 256);
    Loaded(c.oreg, At(c.mem, a));
  }

  lemma FastAddressed(c: Chip, a: nat)
    requires Serial(c) && Quiet(c) && c.count == 24 && c.ctl.state.FastRead? && a < MemBytes
    requires Address(256 * c.ireg + a % 256) == a
    ensures var d := Byted(Flash(), c, a % 256);
            var e := Byted(Flash(), d, 0);
            Serial(d) && Quiet(d) && Streaming1(e, FastRead, a, 0) && e.mem == c.mem
  {
    DataByte(c, a % 256);
    var d := Byted(Flash(), c, a % 256);
    DataByte(d, 0);
    Loaded(d.oreg, At(c.mem, a));
  }

  lemma OpenRead(c: Chip, op: nat, s: State)
    requires Quiet(c) && Offline(c) && ((op == 0x03 && s == SlowRead) || (op == 0x0b && s == FastRead))
    ensures var d := Byted(Flash(), c, op); Serial(c) && Serial(d) && Quiet(d) && d.count == 8 && d.ctl.state == s && d.mem == c.mem
  {
    CommandByte(c, op);
  }

  method SendReadAddress(port: Port, a: nat, ghost s: State)
    requires port.logic == Flash() && Serial(port.flash) && Quiet(port.flash) && port.flash.count == 8 && a < MemBytes
    requires port.flash.ctl.state == s && ReadCommand(s)
    modifies port`flash
    ensures Serial(port.flash) && Quiet(port.flash) && port.flash.count == 24 && port.flash.ctl.state == s
    ensures port.flash.mem == old(port.flash.mem) && Address(256 * port.flash.ireg + a % 256) == a
  {
    FlashPassive();
    ThreeBytes(port.flash.ireg, a);
    ghost var c1 := ReadAddressByte(port.flash, a / 0x1_0000 % 256);
    ghost var _ := ReadAddressByte(c1, a / 256 % 256);
    var _ := port.Send(a / 0x1_0000 % 256);
    var _ := port.Send(a / 256 % 256);
  }

  /** The read command 0x03, or the fast one 0x0b with its dummy byte: n bytes of memory. */
  method Read1(port: Port, a: nat, n: nat, fast: bool) returns (data: seq<Byte>)
    requires port.logic == Flash() && Quiet(port.flash) && Offline(port.flash) && a + n <= MemBytes && a < MemBytes
    modifies port`flash
    ensures Quiet(port.flash) && Offline(port.flash) && port.flash.mem == old(port.flash.mem)
    ensures data == old(port.flash.mem)[a..a + n]
  {
    ghost var s := if fast then FastRead else SlowRead;
    OpenRead(port.flash, if fast then 0x0b else 0x03, s);
    FlashPassive();
    var _ := port.Send(if fast then 0x0b else 0x03);
    SendReadAddress(port, a, s);
    LastAddressByte(port, a, fast);
    data := Stream1(port, a, n, s);
  }

  method Stream1(port: Port, a: nat, n: nat, ghost s: State) returns (data: seq<Byte>)
    requires port.logic == Flash() && Streaming1(port.flash, s, a, 0) && a + n <= MemBytes
    modifies port`flash
    ensures Quiet(port.flash) && Offline(port.flash) && port.flash.mem == old(port.flash.mem)
    ensures data == old(port.flash.mem)[a..a + n]
  {
    ghost var mem := port.flash.mem;
    data := [];
    for j := 0 to n
      invariant Streaming1(port.flash, s, a, j) && port.flash.mem == mem && data == mem[a..a + j]
    {
      var v := NextByte(port, a, j, s);
      data := data + [v];
    }
    ClosedFinishes(port.flash.ctl);
    var _ := port.Raise();
  }

  method NextByte(port: Port, a: nat, j: nat, ghost s: State) returns (v: Byte)
    requires port.logic == Flash() && Streaming1(port.flash, s, a, j) && a + j < MemBytes
    modifies port`flash
    ensures Streaming1(port.flash, s, a, j + 1) && port.flash.mem == old(port.flash.mem) && v == old(port.flash.mem)[a + j]
  {
    StreamOn1(port.flash, s, a, j);
    FlashPassive();
    var x := port.Send(0);
    v := x;
  }

  method LastAddressByte(port: Port, a: nat, fast: bool)
    requires port.logic == Flash() && Serial(port.flash) && Quiet(port.flash) && port.flash.count == 24 && a < MemBytes
    requires port.flash.ctl.state == (if fast then FastRead else SlowRead) && Address(256 * port.flash.ireg + a % 256) == a
    modifies port`flash
    ensures Streaming1(port.flash, if fast then FastRead else SlowRead, a, 0) && port.flash.mem == old(port.flash.mem)
  {
    FlashPassive();
    if fast {
      FastAddressed(port.flash, a);
      var _ := port.Send(a % 256);
      var _ := port.Send(0);
    } else {
      SlowAddressed(port.flash, a);
      var _ := port.Send(a % 256);
    }
  }
}
