/** Continued reads: the address on four wires, a mode byte, and then the memory, nibble by nibble. */
module FlashXip {
  import opened Arith
  import opened FlashChip
  import opened FlashWire
  import opened FlashSession

  /** The first k nibbles of a 24-bit address, as a number. */
  function Hex(a: nat, k: nat): nat
    requires k <= 6
    decreases 6 - k
  {
    if k == 6 then a else Hex(a, k + 1) / 16
  }

  lemma HexStarts(a: nat, k: nat)
    requires a < MemBytes && k == 0
    ensures Hex(a, k) == 0
  {
    assert Hex(a, k + 5) == a / 16;
    assert Hex(a, k + 4) == Hex(a, k + 5) / 16;
    assert Hex(a, k + 3) == Hex(a, k + 4) / 16;
    assert Hex(a, k + 2) == Hex(a, k + 3) / 16;
    assert Hex(a, k + 1) == Hex(a, k + 2) / 16;
  }

  /** The nibble sent k-th: the address, then the mode byte 0xa0. */
  function Nibble(a: nat, k: nat): Pins
    requires k < 8
  {
    if k < 6 then Hex(a, k + 1) % 16 else if k == 6 then 10 else 0
  }

  /** k nibbles into a continued read of address a. */
  predicate Seeking(c: Chip, a: nat, k: nat) {
    && Quiet(c) && c.lastSck && c.ctl.mode.Quad? && k < 8 && c.count == 4 * k && a < MemBytes
    && (if k < 6 then c.ctl.state.QuadReadIdle? && c.ireg == Hex(a, k)
        else c.ctl.state.QuadRead? && c.ctl.addr == a && c.oreg == 0 && (k == 7 ==> c.ireg % 16 == 10))
  }

  /** j bytes of memory into a continued read from address a, the next one loaded. */
  predicate Streaming(c: Chip, a: nat, j: nat) {
    && Quiet(c) && c.lastSck && c.ctl.mode.Quad? && c.ctl.state.QuadRead? && Continues(c.ctl)
    && c.count == 32 + 8 * j && c.ctl.addr == a + j + 1 && c.oreg % 256 == At(c.mem, a + j)
  }

  lemma SeekStarts(c: Chip, a: nat)
    requires Quiet(c) && Online(c) && a < MemBytes
    ensures Seeking(c, a, 0)
  {
    HexStarts(a, 0);
  }

  lemma SeekControl(c: Control, a: nat, k: nat, r: nat, count: nat)
    requires k < 7 && a < MemBytes && count == 4 * k + 4 && c.mode.Quad? && !c.status.asleep
    requires if k < 6 then c.state.QuadReadIdle? && r == Hex(a, k + 1) else c.state.QuadRead? && c.addr == a
    ensures var d := Respond(c, count, r);
            && d.status == c.status && d.mode == c.mode
            && (if k + 1 < 6 then d.state.QuadReadIdle? else d.state.QuadRead? && d.addr == a)
  {
    if k == 5 {
      SmallMod(a, MemBytes);
    }
  }

  lemma SeekOut(mem: Memory, c: Control, count: nat, r: nat, k: nat)
    requires k < 7 && count == 4 * k + 4
    requires if k < 6 then c.state.QuadReadIdle? else c.state.QuadRead?
    ensures RespondOut(mem, c, count, r, 0) == 0 && (k < 6 ==> forall o :: RespondOut(mem, c, count, r, o) == 0)
  {
  }

  lemma SeekOn(c: Chip, a: nat, k: nat, b: Beat)
    requires Seeking(c, a, k) && k < 7 && b.dat == Nibble(a, k)
    ensures Seeking(Beaten(Flash(), c, b), a, k + 1) && Beaten(Flash(), c, b).mem == c.mem
  {
    var r, count := 16 * c.ireg + b.dat, 4 * k + 4;
    if k < 6 {
      assert Hex(a, k) == Hex(a, k + 1) / 16;
    }
    SeekControl(c.ctl, a, k, r, count);
    SeekOut(c.mem, c.ctl, count, r, k);
    QuadBeat(Flash(), c, b, Respond(c.ctl, count, r));
  }

  lemma ModeControl(mem: Memory, c: Control, a: nat, r: nat)
    requires c.state.QuadRead? && c.addr == a && Low(r) / 16 == 10
    ensures var d := Respond(c, 32, r);
            && d.status == c.status && d.mode == c.mode && d.state.QuadRead? && d.addr == a + 1 && Continues(d)
    ensures RespondOut(mem, c, 32, r, 0) == At(mem, a)
  {
  }

  /** The mode byte starts the stream. */
  lemma StreamStarts(c: Chip, a: nat, b: Beat)
    requires Seeking(c, a, 7)
    ensures Streaming(Beaten(Flash(), c, b), a, 0) && Beaten(Flash(), c, b).mem == c.mem
  {
    var r := 16 * c.ireg + b.dat;
    ModeNibble(c.ireg, b.dat);
    ModeControl(c.mem, c.ctl, a, r);
    QuadBeat(Flash(), c, b, Respond(c.ctl, 32, r));
    SmallMod(At(c.mem, a), 256);
  }

  lemma HalfControl(mem: Memory, c: Control, j: nat, r: nat, o: nat)
    requires c.state.QuadRead?
    ensures Respond(c, 36 + 8 * j, r) == c && RespondOut(mem, c, 36 + 8 * j, r, o) == o
  {
    DivModUnique(36 + 8 * j, 8, 4 + j, 4);
  }

  lemma NextControl(mem: Memory, c: Control, j: nat, r: nat, o: nat)
    requires c.state.QuadRead? && !c.status.wip
    ensures Respond(c, 40 + 8 * j, r) == c.(addr := c.addr + 1)
    ensures RespondOut(mem, c, 40 + 8 * j, r, o) == Load(o, [At(mem, c.addr)])
  {
    DivModUnique(40 + 8 * j, 8, 5 + j, 0);
  }

  lemma HighNibble(o: nat)
    ensures 16 * o / 256 % 16 == o % 256 / 16
  {
    DivDiv(16 * o, 16, 16);
    DivModUnique(16 * o, 16, o, 0);
    DivModUnique(o / 16, 16, o / 256, o % 256 / 16);
  }

  lemma LowNibble(o: nat)
    ensures o % 16 == o % 256 % 16
  {
    var q, r := o / 256, o % 256;
    ModMultiple(r, 16, 16 * q);
  }

  /** Two clocks bring one byte out, high nibble first, and load the next. */
  lemma StreamByte(c: Chip, a: nat, j: nat, b1: Beat, b2: Beat)
    requires Streaming(c, a, j) && c.count + 16 < CountWrap
    ensures var d1 := Beaten(Flash(), c, b1);
            var d2 := Beaten(Flash(), d1, b2);
            && d1.ctl.mode.Quad? && d1.oreg / 256 % 16 == At(c.mem, a + j) / 16
            && d2.oreg / 256 % 16 == At(c.mem, a + j) % 16
            && d2.mem == c.mem && Streaming(d2, a, j + 1)
  {
    HalfControl(c.mem, c.ctl, j, 16 * c.ireg + b1.dat, 16 * c.oreg);
    QuadBeat(Flash(), c, b1, c.ctl);
    HighNibble(c.oreg);
    SecondHalf(c, a, j, Beaten(Flash(), c, b1), b2);
  }

  lemma SecondHalf(c: Chip, a: nat, j: nat, d: Chip, b: Beat)
    requires Streaming(c, a, j) && c.count + 16 < CountWrap
    requires d.mem == c.mem && d.ctl == c.ctl && d.lastSck && d.count == c.count + 4 && d.oreg == 16 * c.oreg
    ensures var e := Beaten(Flash(), d, b);
            e.oreg / 256 % 16 == At(c.mem, a + j) % 16 && e.mem == c.mem && Streaming(e, a, j + 1)
  {
    NextControl(c.mem, c.ctl, j, 16 * d.ireg + b.dat, 16 * d.oreg);
    QuadBeat(Flash(), d, b, c.ctl.(addr := c.ctl.addr + 1));
    Loaded(c.oreg, At(c.mem, a + j + 1));
    LowNibble(c.oreg);
  }

  /** Chip select ends the stream, and the next read may continue. */
  lemma StreamEnds(c: Chip, a: nat, j: nat)
    requires Streaming(c, a, j)
    ensures var d := Deselect(c); Online(d) && Quiet(d) && d.mem == c.mem
  {
  }
}
