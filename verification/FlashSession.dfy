/** Whole transactions with the flash device, byte by byte and nibble by nibble. */
module FlashSession {
  import opened Arith
  import Fold
  import opened Bitwise
  import opened FlashChip
  import opened FlashWire

  /** No write in progress, no countdown, awake. */
  predicate Quiet(c: Chip) {
    !c.ctl.status.wip && c.ctl.status.writeCount == 0 && !c.ctl.status.asleep
  }

  /** No command is left for the rise of chip select to carry out, and no read to be continued. */
  predicate Closed(c: Control) {
    && !Writing(c.state) && !c.state.WriteStatus? && !c.state.ClearStatus? && !c.state.Release?
    && !Suspended(c.state) && !c.state.Failed?
    && (c.state.QuadReadCmd? || c.state.QuadRead? || c.state.DualReadCmd? || c.state.DualRead? ==> !Continues(c))
  }

  /** Between transactions: taking commands, or in continued reads. */
  predicate Offline(c: Chip) {
    c.lastSck && c.count == 0 && c.ireg == 0 && c.ctl.mode.Spi? && Closed(c.ctl)
  }

  predicate Online(c: Chip) {
    c.lastSck && c.count == 0 && c.ireg == 0 && c.ctl.mode.Quad? && c.ctl.state.QuadReadIdle?
  }

  lemma ClosedFinishes(c: Control)
    requires (c.mode.Spi? && Closed(c)) || Suspended(c.state)
    ensures Finish(c) == c
  {
  }

  // ---------------------------------------------------------------------------------------------
  // Bytes

  lemma CommandByte(c: Chip, b: nat)
    requires Serial(c) && c.count == 0 && b < 256
    ensures var d := Byted(Flash(), c, b);
            && d.mem == c.mem && d.ctl == Command(c.ctl, b) && d.lastSck && d.count == 8
            && d.oreg == Load(256 * c.oreg, [CommandOut(c.ctl, b)])
  {
    RespondCommand(c.mem, c.ctl, c.ireg, b, 256 * c.oreg);
    BytedAs(Flash(), c, b, Command(c.ctl, b), Load(256 * c.oreg, [CommandOut(c.ctl, b)]));
  }

  lemma BytedIs(l: Logic, c: Chip, b: nat)
    ensures var d := Byted(l, c, b);
            && d.mem == c.mem && d.lastSck && d.count == c.count + 8 && d.ireg == 256 * c.ireg + b
            && d.ctl == l.respond(c.ctl, d.count, d.ireg)
            && d.oreg == l.out(c.mem, c.ctl, d.count, d.ireg, 256 * c.oreg)
  {
  }

  lemma BytedAs(l: Logic, c: Chip, b: nat, x: Control, o: nat)
    requires c.count == 0 && l.respond(c.ctl, 8, 256 * c.ireg + b) == x
    requires l.out(c.mem, c.ctl, 8, 256 * c.ireg + b, 256 * c.oreg) == o
    ensures var d := Byted(l, c, b); d.mem == c.mem && d.ctl == x && d.lastSck && d.count == 8 && d.oreg == o
  {
  }

  lemma RespondCommand(mem: Memory, c: Control, r: nat, b: nat, o: nat)
    requires !Suspended(c.state) && !c.state.Failed? && b < 256
    ensures Respond(c, 8, 256 * r + b) == Command(c, b)
    ensures RespondOut(mem, c, 8, 256 * r + b, o) == Load(o, [CommandOut(c, b)])
  {
    DivModUnique(256 * r + b, 256, r, b);
  }

  lemma DataByte(c: Chip, b: nat)
    requires Serial(c) && c.count >= 8
    ensures var d := Byted(Flash(), c, b);
            && d.mem == c.mem && d.ctl == Data(c.ctl, c.count + 8, 256 * c.ireg + b) && d.lastSck
            && d.count == c.count + 8 && d.ireg == 256 * c.ireg + b
            && d.oreg == Load(256 * c.oreg, DataOut(c.mem, c.ctl, c.count + 8, 256 * c.ireg + b))
  {
    BytedIs(Flash(), c, b);
    RespondData(c.mem, c.ctl, c.count + 8, 256 * c.ireg + b, 256 * c.oreg);
  }

  lemma RespondData(mem: Memory, c: Control, count: nat, r: nat, o: nat)
    requires !Suspended(c.state) && !c.state.Failed? && count > 8 && count % 8 == 0
    ensures Respond(c, count, r) == Data(c, count, r)
    ensures RespondOut(mem, c, count, r, o) == Load(o, DataOut(mem, c, count, r))
  {
  }

  /** Chip select high for one tick more. */
  lemma DeselectTwice(c: Chip, n: nat)
    ensures Deselect(Age(Pause(Deselect(c), n))) == Pause(Deselect(c), n + 1)
  {
    FinishTwice(c.ctl, Down(Finish(c.ctl).status, n + 1));
  }

  lemma FinishTwice(c: Control, s: Status)
    ensures var d := Finish(c).(status := s); Finish(d) == d && !Writing(d.state)
  {
  }

  // ---------------------------------------------------------------------------------------------
  // Page program

  /** The page buffer once these bytes have been sent, starting at address a. */
  function Buffered(a: nat, data: seq<Byte>): Page {
    seq(PageBytes, j requires 0 <= j < PageBytes =>
      if a % PageBytes <= j < a % PageBytes + |data| then data[j - a % PageBytes] else Ones)
  }

  /** The memory with these bytes and-ed in from address a on. */
  function Burned(mem: Memory, a: nat, data: seq<Byte>): Memory {
    seq(MemBytes, i requires 0 <= i < MemBytes =>
      if a <= i < a + |data| then And(mem[i], data[i - a]) else mem[i])
  }

  /** In the middle of a page program. */
  predicate Loading(c: Chip, a: nat, data: seq<Byte>) {
    && Serial(c) && Quiet(c) && c.ctl.state.PageProgram? && c.count == 32 + 8 * |data|
    && a % PageBytes + |data| <= PageBytes
    && c.ctl.addr == a - a % PageBytes + (a + |data|) % PageBytes
    && c.ctl.pmem == Buffered(a, data)
  }

  lemma LoadMore(c: Chip, a: nat, data: seq<Byte>, b: Byte)
    requires Loading(c, a, data) && a % PageBytes + |data| < PageBytes
    ensures Byted(Flash(), c, b).mem == c.mem && Loading(Byted(Flash(), c, b), a, data + [b])
    ensures Byted(Flash(), c, b).ctl.status == c.ctl.status
  {
    DataByte(c, b);
    FillsPage(c.ctl, c.count + 8, c.ireg, b);
    FillPage(c.ctl, a, data, b);
    var d := Byted(Flash(), c, b);
    assert d.ctl == Fill(c.ctl, b);
    assert |data + [b]| == |data| + 1;
  }

  lemma FillsPage(c: Control, count: nat, r: nat, b: Byte)
    requires c.state.PageProgram? && count >= 40
    ensures Data(c, count, 256 * r + b) == Fill(c, b)
  {
    assert Low(256 * r + b) == b;
  }

  lemma FillPage(c: Control, a: nat, data: seq<Byte>, b: Byte)
    requires a % PageBytes + |data| < PageBytes
    requires c.addr == a - a % PageBytes + (a + |data|) % PageBytes && c.pmem == Buffered(a, data)
    ensures var d := Fill(c, b);
            && d.pmem == Buffered(a, data + [b])
            && d.addr == a - a % PageBytes + (a + |data + [b]|) % PageBytes
  {
    PageOffsets(a, |data|, c.addr);
    BufferMore(a, data, b);
  }

  /** Where in its page the next byte goes. */
  lemma PageOffsets(a: nat, n: nat, addr: nat)
    requires a % PageBytes + n < PageBytes && addr == a - a % PageBytes + (a + n) % PageBytes
    ensures (a + n) % PageBytes == a % PageBytes + n == addr % PageBytes
    ensures addr - addr % PageBytes == a - a % PageBytes
  {
    DivModUnique(a + n, PageBytes, a / PageBytes, a % PageBytes + n);
    DivModUnique(addr, PageBytes, a / PageBytes, a % PageBytes + n);
  }

  lemma BufferMore(a: nat, data: seq<Byte>, b: Byte)
    requires a % PageBytes + |data| < PageBytes
    ensures Buffered(a, data)[a % PageBytes + |data| := b] == Buffered(a, data + [b])
  {
  }

  lemma Programs(mem: Memory, addr: nat, a: nat, data: seq<Byte>)
    requires a % PageBytes + |data| <= PageBytes && addr / PageBytes == a / PageBytes
    ensures Programmed(mem, addr, Buffered(a, data)) == Burned(mem, a, data)
  {
    var p, q := Programmed(mem, addr, Buffered(a, data)), Burned(mem, a, data);
    forall i | 0 <= i < MemBytes ensures p[i] == q[i] {
      ProgramsAt(mem, addr, a, data, i);
    }
  }

  lemma ProgramsAt(mem: Memory, addr: nat, a: nat, data: seq<Byte>, i: nat)
    requires a % PageBytes + |data| <= PageBytes && addr / PageBytes == a / PageBytes && i < MemBytes
    ensures Programmed(mem, addr, Buffered(a, data))[i] == Burned(mem, a, data)[i]
  {
    var j := i % PageBytes;
    assert Buffered(a, data)[j] == if a % PageBytes <= j < a % PageBytes + |data| then data[j - a % PageBytes] else Ones;
    AndOnes(mem[i]);
  }

  /** Chip select ends a page program. */
  lemma LoadDone(c: Chip, a: nat, data: seq<Byte>)
    requires Loading(c, a, data) && |data| > 0
    ensures var d := Deselect(c);
            && d.mem == Burned(c.mem, a, data) && d.lastSck && d.count == 0 && d.ctl.state == Idle
            && d.ctl.mode.Spi? && d.ctl.status == Begin(c.ctl.status, tPP)
  {
    Programs(c.mem, c.ctl.addr, a, data);
  }

  /** A command that takes an address. */
  predicate Addressing(c: Chip, s: State) {
    Serial(c) && Quiet(c) && c.ctl.state == s && c.count == 8
  }

  lemma ThreeBytes(r: nat, a: nat)
    requires a < MemBytes
    ensures Address(256 * (256 * (256 * r + a / 0x1_0000 % 256) + a / 256 % 256) + a % 256) == a
  {
    var h, m, l := a / 0x1_0000 % 256, a / 256 % 256, a % 256;
    assert a == 0x1_0000 * h + 256 * m + l;
    DivModUnique(0x100_0000 * r + a, 0x100_0000, r, a);
  }

  /** Three address bytes after a page program command. */
  lemma ProgramAddressed(c: Chip, a: nat) returns (c1: Chip, c2: Chip, c3: Chip)
    requires Addressing(c, PageProgram) && a < MemBytes
    ensures c1 == Byted(Flash(), c, a / 0x1_0000 % 256) && Serial(c1) && Quiet(c1)
    ensures c2 == Byted(Flash(), c1, a / 256 % 256) && Serial(c2) && Quiet(c2)
    ensures c3 == Byted(Flash(), c2, a % 256) && Loading(c3, a, []) && c3.mem == c.mem && c3.ctl.status == c.ctl.status
  {
    c1 := AddressByte(c, a / 0x1_0000 % 256);
    c2 := AddressByte(c1, a / 256 % 256);
    DataByte(c2, a % 256);
    c3 := Byted(Flash(), c2, a % 256);
    ThreeBytes(c.ireg, a);
    assert Buffered(a, []) == BlankPage();
  }

  lemma AddressByte(c: Chip, b: nat) returns (d: Chip)
    requires Serial(c) && c.count in {8, 16} && b < 256
    requires Programming(c.ctl.state) || c.ctl.state.SectorErase?
    ensures d == Byted(Flash(), c, b) && Serial(d) && d.count == c.count + 8
    ensures d.ctl == c.ctl && d.mem == c.mem && d.ireg == 256 * c.ireg + b
  {
    d := Byted(Flash(), c, b);
    DataByte(c, b);
  }

  // ---------------------------------------------------------------------------------------------
  // Sector erase

  /** Three address bytes after a sector erase command.  The device asserts that the address has none of bits 22 to
      27: it accepts exactly the lower quarter of its memory. */
  lemma EraseAddressed(c: Chip, a: nat) returns (c1: Chip, c2: Chip, c3: Chip)
    requires Addressing(c, SectorErase) && a < MemBytes
    ensures c1 == Byted(Flash(), c, a / 0x1_0000 % 256) && Serial(c1) && Quiet(c1)
    ensures c2 == Byted(Flash(), c1, a / 256 % 256) && Serial(c2) && Quiet(c2)
    ensures c3 == Byted(Flash(), c2, a % 256) && Quiet(c3) && Targeted(c, a, c3)
  {
    c1 := AddressByte(c, a / 0x1_0000 % 256);
    c2 := AddressByte(c1, a / 256 % 256);
    DataByte(c2, a % 256);
    c3 := Byted(Flash(), c2, a % 256);
    ThreeBytes(c.ireg, a);
    EraseTaken(c2.ctl, 256 * c2.ireg + a % 256, a);
  }

  /** The device c has an erase address; it has failed if it does not like it. */
  predicate Targeted(c: Chip, a: nat, d: Chip) {
    d.mem == c.mem && d.lastSck && d.count == 32 && d.ctl == Aimed(c.ctl, a)
  }

  function Aimed(c: Control, a: nat): Control {
    c.(addr := a - a % 0x4000, state := if a < EraseLimit then SectorErase else Failed)
  }

  lemma EraseTaken(c: Control, r: nat, a: nat)
    requires c.state.SectorErase? && a < MemBytes && Address(r) == a
    ensures Data(c, 32, r) == Aimed(c, a)
  {
    EraseAsserts(a);
    assert Data(c, 32, r) == EraseAt(c, Address(r) - Address(r) % 0x4000);
  }

  lemma EraseDone(c: Chip, a: nat)
    requires Quiet(c) && c.ctl.state.SectorErase? && c.ctl.mode.Spi? && c.ctl.addr == a - a % 0x4000
    ensures var d := Deselect(c);
            && d.mem == SectorErased(c.mem, a) && d.lastSck && d.count == 0 && d.ctl.state == Idle
            && d.ctl.mode.Spi? && d.ctl.status == Begin(c.ctl.status, tSE)
  {
    assert (a - a % 0x4000) / 0x1_0000 == a / 0x1_0000;
  }

  /** The first address the device will not erase. */
  const EraseLimit: nat := 0x40_0000

  lemma EraseAsserts(a: nat)
    requires a < MemBytes
    ensures Erasable(a - a % 0x4000) <==> a < EraseLimit
  {
    EraseBlock(a - a % 0x4000, 22, 6);
  }

  lemma EraseBlock(x: nat, k: nat, w: nat)
    requires x < MemBytes && k == 22 && w == 6
    ensures And(x, 0xfc0_0000) == 0 <==> x < 0x40_0000
  {
    assert Pow2(11) == 2048;
    Pow2Add(11, k - 11);
    assert Pow2(6) == 64;
    ShiftedIs(63, k);
    AndBlock(x, k, w);
  }

  // ---------------------------------------------------------------------------------------------
  // Waiting for a write to finish

  /** Write in progress exactly as long as the countdown runs, and no longer than an erase takes. */
  predicate Ticking(s: Status) {
    (s.wip <==> s.writeCount > 0) && !s.asleep && s.writeCount <= tSE
  }

  lemma {:induction false} DownTicking(s: Status, n: nat)
    requires Ticking(s)
    ensures Ticking(Down(s, n))
    ensures Down(s, n).writeCount == if n < s.writeCount then s.writeCount - n else 0
    ensures Down(s, n).rest == s.rest && (!s.wel ==> !Down(s, n).wel)
  {
    if n > 0 {
      DownTicking(s, n - 1);
    }
  }

  /** The status register is being read, and a reading on its way out that says the write is over is
      right. */
  predicate Polling(c: Chip) {
    && Serial(c) && c.ctl.state.ReadStatus? && Ticking(c.ctl.status) && c.count >= 8
    && (c.oreg % 2 == 0 ==> !c.ctl.status.wip)
  }

  /** The other bits of the status register stay as they are. */
  predicate SameRest(s: Status, t: Status) {
    t.rest == s.rest && (!s.wel ==> !t.wel)
  }

  lemma Loaded(o: nat, x: Byte)
    ensures Load(256 * o, [x]) == 256 * o + x
    ensures Load(256 * o, [x]) / 256 == o && Load(256 * o, [x]) % 256 == x
    ensures Load(256 * o, [x]) % 2 == x % 2
  {
    DivModUnique(256 * o, 256, o, 0);
    DivModUnique(256 * o + x, 256, o, x);
  }

  lemma WipBit(s: Status)
    ensures Register(s) % 2 == Bit(s.wip)
  {
  }

  /** What time does to a device whose status is being read. */
  lemma PollPauses(l: Logic, c: Chip, bs: seq<Beat>, b: nat, x: Chip)
    requires Passive(l) && Serial(c) && Carries(bs, b) && x == Byted(l, Pause(c, Ticks(bs, |bs| - 1) + 1), b)
    requires Polling(x)
    ensures var d := Beats(l, c, bs);
            && Polling(d) && d.mem == x.mem && d.count == x.count && d.oreg == x.oreg
            && d.ctl.status.writeCount <= x.ctl.status.writeCount && SameRest(x.ctl.status, d.ctl.status)
  {
    ByteBeats(l, c, bs, b, x);
    DownTicking(x.ctl.status, bs[7].pad + 1);
  }

  lemma PollOpens(c: Chip)
    requires Serial(c) && c.count == 0 && Ticking(c.ctl.status)
    ensures var x := Byted(Flash(), c, 5);
            && Polling(x) && x.mem == c.mem && x.count == 8 && x.ctl.status == c.ctl.status
            && x.oreg % 256 == Register(c.ctl.status)
  {
    CommandByte(c, 5);
    Loaded(c.oreg, Register(c.ctl.status));
    WipBit(c.ctl.status);
  }

  lemma StatusOut(mem: Memory, c: Control, count: nat, r: nat, o: nat)
    requires c.state.ReadStatus? && count > 8 && count % 8 == 0
    ensures Respond(c, count, r) == c && RespondOut(mem, c, count, r, o) == Load(o, [Register(c.status)])
  {
    RespondData(mem, c, count, r, o);
  }

  lemma PollGoesOn(l: Logic, c: Chip, o: nat)
    requires o / 256 == c.oreg && o % 2 == Bit(c.ctl.status.wip)
    requires Serial(c) && c.count >= 8 && c.ctl.state.ReadStatus? && Ticking(c.ctl.status) && c.count + 16 < CountWrap
    requires l.respond(c.ctl, c.count + 8, 256 * c.ireg) == c.ctl
    requires l.out(c.mem, c.ctl, c.count + 8, 256 * c.ireg, 256 * c.oreg) == o
    ensures var x := Byted(l, c, 0);
            && Polling(x) && x.mem == c.mem && x.count == c.count + 8 && x.ctl.status == c.ctl.status
            && x.oreg / 256 == c.oreg && x.oreg % 2 == Bit(c.ctl.status.wip)
  {
    BytedIs(l, c, 0);
    ModMultiple(c.count, 8, 1);
  }

  /** A reading of a register with these other bits. */
  predicate Reports(s: Status, v: nat) {
    v / 4 == s.rest && (!s.wel ==> v / 2 % 2 == 0)
  }

  lemma RegisterReports(s: Status, t: Status)
    requires SameRest(s, t)
    ensures Reports(s, Register(t))
  {
  }

  /** The read status command. */
  lemma PollStarts(c: Chip, bs: seq<Beat>)
    requires Serial(c) && c.count == 0 && Ticking(c.ctl.status) && Carries(bs, 5)
    ensures var d := Beats(Flash(), c, bs);
            && Polling(d) && d.mem == c.mem && d.count == 8 && d.ctl.status.writeCount <= c.ctl.status.writeCount
            && SameRest(c.ctl.status, d.ctl.status) && Reports(c.ctl.status, d.oreg % 256)
  {
    var e := Pause(c, Ticks(bs, |bs| - 1) + 1);
    DownTicking(c.ctl.status, Ticks(bs, |bs| - 1) + 1);
    PollOpens(e);
    RegisterReports(c.ctl.status, e.ctl.status);
    FlashPassive();
    PollPauses(Flash(), c, bs, 5, Byted(Flash(), e, 5));
  }

  /** One status byte later there is less to wait for, or the answer is on its way. */
  lemma PollContinues(c: Chip, bs: seq<Beat>)
    requires Polling(c) && Carries(bs, 0) && c.count + 16 < CountWrap
    ensures var d := Beats(Flash(), c, bs);
            && Polling(d) && d.mem == c.mem && d.count == c.count + 8 && d.oreg / 256 == c.oreg
            && SameRest(c.ctl.status, d.ctl.status)
            && (if c.ctl.status.writeCount == 0 then d.oreg % 2 == 0 && d.ctl.status.writeCount == 0
                else d.ctl.status.writeCount < c.ctl.status.writeCount)
  {
    var e := Pause(c, Ticks(bs, |bs| - 1) + 1);
    DownTicking(c.ctl.status, Ticks(bs, |bs| - 1) + 1);
    StatusOut(e.mem, e.ctl, e.count + 8, 256 * e.ireg, 256 * e.oreg);
    Loaded(e.oreg, Register(e.ctl.status));
    WipBit(e.ctl.status);
    PollGoesOn(Flash(), e, Load(256 * e.oreg, [Register(e.ctl.status)]));
    FlashPassive();
    PollPauses(Flash(), c, bs, 0, Byted(Flash(), e, 0));
  }

  // ---------------------------------------------------------------------------------------------
  // Four wires at a time

  lemma QuadBeat(l: Logic, c: Chip, b: Beat, x: Control)
    requires c.ctl.mode.Quad? && Quiet(c) && c.count + 4 < CountWrap
    requires x == l.respond(c.ctl, c.count + 4, 16 * c.ireg + b.dat) && x.status == c.ctl.status
    ensures var d := Beaten(l, c, b);
            && d.mem == c.mem && d.lastSck && d.count == c.count + 4 && d.ireg == 16 * c.ireg + b.dat && d.ctl == x
            && d.oreg == l.out(c.mem, c.ctl, d.count, d.ireg, 16 * c.oreg)
  {
    assert Counted(c.ctl.mode, c.count) == c.count + 4;
    var e := Edge(l, c, b.dat);
    assert e.ctl == x;
    DownStill(e.ctl.status, b.pad + 1);
  }

  /** On the way out of continued reads, k nibbles of ones in. */
  predicate Leaving(c: Chip, k: nat) {
    && Quiet(c) && c.lastSck && c.ctl.mode.Quad? && c.count == 4 * k && k <= 48
    && c.ctl.state == (if k < 6 then QuadReadIdle else QuadRead)
    && (k == 7 ==> c.ireg % 2 == 1) && (k >= 8 ==> !Continues(c.ctl))
  }

  lemma LeavesOn(c: Chip, k: nat, b: Beat)
    requires Leaving(c, k) && k < 48 && b.dat % 2 == 1
    ensures Leaving(Beaten(Flash(), c, b), k + 1) && Beaten(Flash(), c, b).mem == c.mem
  {
    var d := LeavingNibble(c.ctl, k, c.ireg, b.dat);
    LeavesBeat(Flash(), c, k, b, d);
  }

  /** The control state a nibble of ones leads to. */
  lemma LeavingNibble(c: Control, k: nat, r: nat, dat: Pins) returns (d: Control)
    requires k < 48 && c.mode.Quad? && !c.status.asleep && c.state == (if k < 6 then QuadReadIdle else QuadRead)
    requires (k == 7 ==> r % 2 == 1) && (k >= 8 ==> !Continues(c))
    ensures d == Flash().respond(c, 4 * k + 4, 16 * r + dat) && Left(c, d, k + 1)
  {
    ModeNibble(r, dat);
    Parity16(r);
    LeavingControl(c, k, 16 * r + dat);
    d := Respond(c, 4 * k + 4, 16 * r + dat);
  }

  predicate Left(c: Control, d: Control, k: nat) {
    && d.state == (if k < 6 then QuadReadIdle else QuadRead) && d.mode == c.mode && d.status == c.status
    && (k >= 8 ==> !Continues(d))
  }

  lemma LeavesBeat(l: Logic, c: Chip, k: nat, b: Beat, d: Control)
    requires Leaving(c, k) && k < 48 && b.dat % 2 == 1
    requires d == l.respond(c.ctl, 4 * k + 4, 16 * c.ireg + b.dat) && Left(c.ctl, d, k + 1)
    ensures Leaving(Beaten(l, c, b), k + 1) && Beaten(l, c, b).mem == c.mem
  {
    QuadBeat(l, c, b, d);
    ModMultiple(b.dat, 2, 8 * c.ireg);
  }

  lemma LeavingControl(c: Control, k: nat, x: nat)
    requires k < 48 && c.mode.Quad? && !c.status.asleep && c.state == (if k < 6 then QuadReadIdle else QuadRead)
    requires (k == 7 ==> Low(x) / 16 % 2 == 1) && (k >= 8 ==> !Continues(c))
    ensures Left(c, Respond(c, 4 * k + 4, x), k + 1)
  {
    if k >= 6 {
      LeavingRead(c, k, x);
    } else {
      LeavingSeek(c, k, x);
    }
  }

  lemma Parity16(r: nat)
    ensures r % 16 % 2 == r % 2
  {
    ModMultiple(r % 16, 2, 8 * (r / 16));
  }

  lemma LeavingSeek(c: Control, k: nat, x: nat)
    requires k < 6 && c.mode.Quad? && !c.status.asleep && c.state == QuadReadIdle
    ensures var d := Respond(c, 4 * k + 4, x);
            d.state == (if k + 1 < 6 then QuadReadIdle else QuadRead) && d.mode == c.mode && d.status == c.status
  {
  }

  lemma LeavingRead(c: Control, k: nat, x: nat)
    requires 6 <= k < 48 && c.state == QuadRead
    requires (k == 7 ==> Low(x) / 16 % 2 == 1) && (k >= 8 ==> !Continues(c))
    ensures var d := Respond(c, 4 * k + 4, x);
            d.state == QuadRead && d.mode == c.mode && d.status == c.status && (k >= 7 ==> !Continues(d))
  {
  }

  lemma ModeNibble(r: nat, dat: Pins)
    ensures Low(16 * r + dat) / 16 == r % 16
  {
    DivModUnique(16 * r + dat, 256, r / 16, 16 * (r % 16) + dat);
  }

  /** On the way into continued reads, k nibbles after the command. */
  predicate Entering(c: Chip, k: nat) {
    && Quiet(c) && c.lastSck && c.ctl.mode.Quad? && c.count == 8 + 4 * k && k <= 64
    && c.ctl.state == QuadReadCmd && (k == 7 ==> c.ireg % 16 == 10) && (k >= 8 ==> Continues(c.ctl))
  }

  lemma EntersOn(c: Chip, k: nat, b: Beat)
    requires Entering(c, k) && k < 64 && (k == 6 ==> b.dat == 10)
    ensures Entering(Beaten(Flash(), c, b), k + 1) && Beaten(Flash(), c, b).mem == c.mem
  {
    EnteringControl(c.ctl, k, c.ireg, b.dat);
    QuadBeat(Flash(), c, b, Respond(c.ctl, 12 + 4 * k, 16 * c.ireg + b.dat));
  }

  lemma EnteringControl(c: Control, k: nat, r: nat, dat: Pins)
    requires k < 64 && c.state.QuadReadCmd?
    requires (k == 7 ==> r % 16 == 10) && (k >= 8 ==> Continues(c))
    ensures var d := Respond(c, 12 + 4 * k, 16 * r + dat);
            d.state.QuadReadCmd? && d.mode == c.mode && d.status == c.status && (k >= 7 ==> Continues(d))
  {
    if k == 7 {
      ModeNibble(r, dat);
    }
  }

  lemma LeavesAll(c: Chip, k: nat, bs: seq<Beat>)
    requires Leaving(c, k) && k + |bs| <= 48 && forall b <- bs :: b.dat % 2 == 1
    ensures Leaving(Beats(Flash(), c, bs), k + |bs|) && Beats(Flash(), c, bs).mem == c.mem
  {
    var step := (d: Chip, b: Beat) => Beaten(Flash(), d, b);
    var inv := (d: Chip, i: nat) => Leaving(d, i) && d.mem == c.mem;
    var ok := (b: Beat) => b.dat % 2 == 1;
    forall d: Chip, b: Beat, i: nat | inv(d, i) && k <= i < 48 && ok(b) ensures inv(step(d, b), i + 1) {
      LeavesOn(d, i, b);
    }
    Fold.RunCounts(step, inv, ok, 48, c, k, bs);
  }

  lemma EntersAll(c: Chip, k: nat, bs: seq<Beat>)
    requires Entering(c, k) && k >= 7 && k + |bs| <= 64
    ensures Entering(Beats(Flash(), c, bs), k + |bs|) && Beats(Flash(), c, bs).mem == c.mem
  {
    var step := (d: Chip, b: Beat) => Beaten(Flash(), d, b);
    var inv := (d: Chip, i: nat) => Entering(d, i) && d.mem == c.mem;
    forall d: Chip, b: Beat, i: nat | inv(d, i) && k <= i < 64 ensures inv(step(d, b), i + 1) {
      EntersOn(d, i, b);
    }
    Fold.RunCounts(step, inv, (b: Beat) => true, 64, c, k, bs);
  }

  // ---------------------------------------------------------------------------------------------
  // What comes back

  /** The bits seen on wire 1 during these beats, as a number. */
  function Heard(l: Logic, c: Chip, bs: seq<Beat>): nat {
    if bs == [] then 0 else 2 * Heard(l, c, bs[..|bs| - 1]) + Beats(l, c, bs).oreg / 256 % 2
  }

  lemma DriveBit(c: Chip, dat: Pins)
    requires c.ctl.mode.Spi?
    ensures Drive(c, dat) / 2 % 2 == c.oreg / 256 % 2
  {
  }

  lemma {:induction false} HeardFirst(l: Logic, c: Chip, bs: seq<Beat>, b: nat, k: nat)
    requires Passive(l) && Serial(c) && Carries(bs, b) && k <= 7
    ensures Heard(l, c, bs[..k]) == Top(c.oreg % 256, k)
  {
    TopIs(c.oreg % 256, k);
    if k == 0 {
      assert bs[..0] == [];
      assert Pow2(8) == 256;
    } else {
      assert bs[..k][..k - 1] == bs[..k - 1];
      HeardFirst(l, c, bs, b, k - 1);
      FirstBits(l, c, bs, b, k);
      HeardBit(c.oreg, k);
    }
  }

  /** The byte heard while another goes out is the one loaded before, as long as the last bit of it is
      still on the wire at the end. */
  lemma HeardByte(l: Logic, c: Chip, bs: seq<Beat>, b: nat)
    requires Passive(l) && Serial(c) && Carries(bs, b) && Beats(l, c, bs).oreg / 256 % 2 == c.oreg % 2
    ensures Heard(l, c, bs) == c.oreg % 256
  {
    HeardFirst(l, c, bs, b, |bs| - 1);
    TopSeven(c.oreg % 256, |bs| - 1);
    Parity(c.oreg);
    HeardLast(l, c, bs, c.oreg % 256 / 2, c.oreg % 256);
  }

  lemma TopSeven(v: nat, k: nat)
    requires k == 7
    ensures Top(v, k) == v / 2
  {
  }

  lemma Parity(o: nat)
    ensures o % 256 % 2 == o % 2
  {
  }

  lemma HeardLast(l: Logic, c: Chip, bs: seq<Beat>, h: nat, v: nat)
    requires bs != [] && Heard(l, c, bs[..|bs| - 1]) == h && h == v / 2 && Beats(l, c, bs).oreg / 256 % 2 == v % 2
    ensures Heard(l, c, bs) == v
  {
  }
}
