/** The flash device of sim/verilated/flashsim.cpp: one call of its operator() is one `Tick`.  The shift
    registers are numbers whose low 24 and 12 bits are all that is ever looked at; the device is the
    16 MiB one that FLASHLGLEN selects, with two dummy clocks. */
module FlashChip {
  import opened Bitwise

  type Byte = n: nat | n < 256

  /** The four data wires. */
  type Pins = n: nat | n < 16

  const MemBytes: nat := 0x100_0000
  const PageBytes: nat := 256
  const SectorBytes: nat := 0x1_0000
  const CountWrap: nat := 0x1_0000_0000

  const tW: nat := 5000
  const tBE: nat := 3_200_000_000
  const tRES: nat := 3_000_000_000
  const tPP: nat := 1200
  const tSE: nat := 1_500_000

  datatype State =
    | Idle | QuadReadIdle | ReadStatus | ReadConfig | WriteStatus | ClearStatus | ReadId | Release
    | SlowRead | FastRead | QuadReadCmd | QuadRead | SectorErase | PageProgram | QuadPageProgram
    | BulkErase | DualReadIdle | DualReadCmd | DualRead | Invalid
    | Failed  // an assert, or an exit, has ended the program

  datatype Mode = Spi | Dual | Quad

  /** The page buffer, and the whole memory. */
  type Page = s: seq<Byte> | |s| == PageBytes witness seq(PageBytes, _ => 0)
  type Memory = s: seq<Byte> | |s| == MemBytes witness seq(MemBytes, _ => 0)

  /** Bits 2 to 7 of the status register. */
  type Rest = n: nat | n < 64

  /** The status register: write in progress, write enable latch, its other bits, and the deep power
      down flag; and the countdown to the end of a write. */
  datatype Status = Status(wip: bool, wel: bool, rest: Rest, asleep: bool, writeCount: nat)

  /** Everything a command byte can change. */
  datatype Control = Control(state: State, mode: Mode, status: Status, creg: nat, modeByte: nat,
                             addr: nat, pmem: Page)

  datatype Chip = Chip(mem: Memory, ctl: Control, lastSck: bool, count: nat, ireg: nat, oreg: nat)

  // ---------------------------------------------------------------------------------------------
  // Bits

  const Ones: Byte := 255

  function Bit(b: bool): nat {
    if b then 1 else 0
  }

  function Register(s: Status): Byte {
    4 * s.rest + 2 * Bit(s.wel) + Bit(s.wip)
  }

  // ---------------------------------------------------------------------------------------------
  // Status

  /** Write enabled, no write in progress, not in deep power down. */
  predicate Writable(s: Status) {
    s.wel && !s.wip && !s.asleep
  }

  /** A write or erase begins. */
  function Begin(s: Status, ticks: nat): Status {
    s.(wel := false, wip := true, writeCount := ticks)
  }

  function CountDown(s: Status): Status {
    if s.writeCount == 0 then s
    else if s.writeCount == 1 then s.(wel := false, wip := false, asleep := false, writeCount := 0)
    else s.(writeCount := s.writeCount - 1)
  }

  // ---------------------------------------------------------------------------------------------
  // Memory

  function Programmed(mem: Memory, addr: nat, pmem: Page): Memory {
    seq(MemBytes, i requires 0 <= i < MemBytes =>
      if i / PageBytes == addr / PageBytes then And(mem[i], pmem[i % PageBytes]) else mem[i])
  }

  function SectorErased(mem: Memory, addr: nat): Memory {
    seq(MemBytes, i requires 0 <= i < MemBytes =>
      if i / SectorBytes == addr / SectorBytes then Ones else mem[i])
  }

  function Blank(): Memory {
    seq(MemBytes, _ => Ones)
  }

  function BlankPage(): Page {
    seq(PageBytes, _ => Ones)
  }

  /** The byte at an address; a read that runs off the end of the array gets no value from the code,
      and zero here. */
  function At(mem: Memory, addr: nat): Byte {
    if addr < MemBytes then mem[addr] else 0
  }

  // ---------------------------------------------------------------------------------------------
  // Chip select high

  predicate Programming(s: State) {
    s.PageProgram? || s.QuadPageProgram?
  }

  predicate Writing(s: State) {
    Programming(s) || s.SectorErase? || s.BulkErase?
  }

  predicate Continues(c: Control) {
    c.modeByte / 16 == 10
  }

  /** Whatever command was running is carried out or dropped. */
  function Finish(c: Control): Control {
    match c.state
    case PageProgram => c.(state := Idle, status := Begin(c.status, tPP), mode := Spi)
    case QuadPageProgram => c.(state := Idle, status := Begin(c.status, tPP), mode := Spi)
    case SectorErase =>
      c.(state := Idle, status := Begin(c.status, tSE), addr := c.addr - c.addr % SectorBytes)
    case BulkErase => c.(state := Idle, status := Begin(c.status, tBE))
    case WriteStatus => c.(state := Idle, status := Begin(c.status, tW))
    case ClearStatus =>
      c.(state := Idle, status := c.status.(rest := And(c.status.rest, 0x27), asleep := false))
    case Release => c.(state := Idle, status := c.status.(writeCount := tRES))
    case QuadReadCmd => if Continues(c) then c.(state := QuadReadIdle) else c.(mode := Spi)
    case QuadRead => if Continues(c) then c.(state := QuadReadIdle) else c.(mode := Spi)
    case DualReadCmd => if Continues(c) then c.(state := DualReadIdle) else c.(mode := Spi)
    case DualRead => if Continues(c) then c.(state := DualReadIdle) else c.(mode := Spi)
    case _ => c
  }

  function Effect(mem: Memory, c: Control): Memory {
    if Programming(c.state) then Programmed(mem, c.addr, c.pmem)
    else if c.state.SectorErase? then SectorErased(mem, c.addr)
    else if c.state.BulkErase? then Blank()
    else mem
  }

  // ---------------------------------------------------------------------------------------------
  // Clock edges

  function ShiftIn(mode: Mode, r: nat, dat: Pins): nat {
    match mode
    case Spi => 2 * r + dat % 2
    case Dual => 4 * r + dat % 4
    case Quad => 16 * r + dat
  }

  function ShiftOut(mode: Mode, o: nat): nat {
    match mode
    case Spi => 2 * o
    case Dual => 4 * o
    case Quad => 16 * o
  }

  function Width(mode: Mode): nat {
    match mode
    case Spi => 1
    case Dual => 2
    case Quad => 4
  }

  /** The low 24 bits of the input register as an address, and its low byte. */
  function Address(r: nat): nat {
    r % MemBytes
  }

  function Low(r: nat): nat {
    r % 256
  }

  function Guarded(c: Control, next: State): Control {
    c.(state := if Writable(c.status) then next else Invalid)
  }

  /** The first byte of a transaction is its command. */
  function Command(c: Control, op: nat): Control {
    if c.status.asleep && op != 0xab then c
    else if op == 0x01 then Guarded(c, WriteStatus)
    else if op == 0x02 then Guarded(c, PageProgram)
    else if op == 0x03 then c.(state := SlowRead)
    else if op == 0x04 then c.(state := Idle, status := c.status.(wel := false))
    else if op == 0x05 then c.(state := ReadStatus)
    else if op == 0x06 then c.(state := Idle, status := c.status.(wel := true))
    else if op == 0x0b then c.(state := FastRead)
    else if op == 0x30 then c.(state := ClearStatus)
    else if op == 0x32 then Guarded(c, QuadPageProgram)
    else if op == 0x35 then c.(state := ReadConfig)
    else if op == 0x50 || op == 0x61 || op == 0x70 then c.(state := Idle)
    else if op == 0x81 then c
    else if op == 0x9f then c.(state := ReadId)
    else if op == 0xab then
      c.(state := Release,
         status := if c.status.asleep then c.status.(asleep := false, writeCount := tRES) else c.status)
    else if op == 0xb9 then
      if c.status.wip then c.(state := Invalid)
      else c.(state := Idle, status := c.status.(asleep := true))
    else if op == 0xbb then c.(state := DualReadCmd, mode := Dual)
    else if op == 0xc7 then Guarded(c, BulkErase)
    else if op == 0xd8 then Guarded(c, SectorErase)
    else if op == 0xeb then c.(state := QuadReadCmd, mode := Quad)
    else if op == 0x00 || op == 0xff then c.(state := Idle, mode := Spi)
    else c.(state := Failed)
  }

  /** What a command puts on its way out. */
  function CommandOut(c: Control, op: nat): nat {
    if c.status.asleep && op != 0xab then 0xa5
    else if op == 0x05 then Register(c.status)
    else if op == 0x35 then c.creg
    else if op == 0x9f then 0x01
    else if op == 0x50 || op == 0x61 || op == 0x70 || op == 0x81 then 0
    else 0xa5
  }

  /** The status and the configuration register; there is no third byte. */
  function WriteRegisters(c: Control, count: nat, i: Byte): Control {
    if count == 16 then
      c.(status := c.status.(rest := And(c.status.rest, 0x18) + And(i / 4, 0x27), wel := false, asleep := false))
    else if count == 24 then c.(creg := And(c.creg, 0xfd) + And(i, 2))
    else c.(state := Failed)
  }

  /** One more byte for the page buffer; the address stays within its page. */
  function Fill(c: Control, b: Byte): Control {
    c.(pmem := c.pmem[c.addr % PageBytes := b],
       addr := c.addr - c.addr % PageBytes + (c.addr + 1) % PageBytes)
  }

  /** Does this byte boundary of a read send the next byte of memory? */
  predicate Fetches(s: State, count: nat, wip: bool) {
    match s
    case SlowRead => count == 32 || (count >= 40 && !wip)
    case FastRead => count >= 40 && !wip
    case DualReadCmd => count >= 40 && !wip
    case QuadReadCmd => count == 40 || (count > 40 && !wip)
    case DualRead => true
    case QuadRead => count == 32 || (count > 32 && !wip)
    case _ => false
  }

  predicate Reading(s: State) {
    s.SlowRead? || s.FastRead? || s.DualReadCmd? || s.QuadReadCmd? || s.DualRead? || s.QuadRead?
  }

  /** The address a read is at before it fetches. */
  function ReadAddr(c: Control, count: nat, r: nat): nat {
    if count == 32 && !c.state.DualRead? && !c.state.QuadRead? then Address(r) else c.addr
  }

  function ReadOn(c: Control, count: nat, r: nat): Control {
    var a := ReadAddr(c, count, r);
    c.(addr := if Fetches(c.state, count, c.status.wip) then a + 1 else a,
       modeByte := if (c.state.DualReadCmd? && count == 40 && !c.status.wip) || (c.state.QuadReadCmd? && count == 40)
                      || ((c.state.DualRead? || c.state.QuadRead?) && count == 32) then Low(r)
                   else c.modeByte)
  }

  /** The assert on an erase address. */
  predicate Erasable(a: nat) {
    And(a, 0xfc0_0000) == 0
  }

  function EraseAt(c: Control, a: nat): Control {
    c.(addr := a, state := if Erasable(a) then SectorErase else Failed)
  }

  /** Every later byte, by the state the command left. */
  function Data(c: Control, count: nat, r: nat): Control {
    if Reading(c.state) then ReadOn(c, count, r)
    else match c.state
      case WriteStatus => WriteRegisters(c, count, Low(r))
      case PageProgram =>
        if count == 32 then c.(addr := Address(r), pmem := BlankPage())
        else if count >= 40 then Fill(c, Low(r))
        else c
      case QuadPageProgram =>
        if count == 32 then c.(addr := Address(r), pmem := BlankPage(), mode := Quad)
        else if count >= 40 then Fill(c, Low(r))
        else c
      case SectorErase =>
        if count == 32 then EraseAt(c, Address(r) - Address(r) % 0x4000) else c
      case ClearStatus => c.(state := Failed)
      case _ => c
  }

  /** What is put on its way out, or nothing, which clears the whole register. */
  function DataOut(mem: Memory, c: Control, count: nat, r: nat): seq<nat> {
    if Fetches(c.state, count, c.status.wip) then [At(mem, ReadAddr(c, count, r))]
    else match c.state
      case ReadStatus => [Register(c.status)]
      case ReadConfig => [c.creg]
      case ReadId => [if count == 16 then 0x15 else if count == 24 then 0x23 else if count == 32 then 0x40 else 0]
      case FastRead => if count == 32 then [0xc3] else []
      case DualReadCmd => if count == 32 then [0] else []
      case QuadReadCmd => if count == 32 then [0] else []
      case SlowRead => []
      case QuadRead => []
      case Release => if count >= 32 then [0x14] else [0]
      case _ => [0]
  }

  predicate Suspended(s: State) {
    s.QuadReadIdle? || s.DualReadIdle?
  }

  /** A continued read takes its address without a command byte.  Two asserts say that the device is awake and that
      the wires are still those of the read. */
  function Resume(c: Control, count: nat, r: nat): Control {
    if c.status.asleep || c.mode != (if c.state.QuadReadIdle? then Quad else Dual) then c.(state := Failed)
    else if count == 24 then c.(addr := Address(r), state := if c.state.QuadReadIdle? then QuadRead else DualRead)
    else c
  }

  /** The output register with its low byte replaced, or cleared. */
  function Load(o: nat, out: seq<nat>): nat {
    if out == [] then 0 else o - o % 256 + out[0]
  }

  /** What the bits clocked in so far make the device do. */
  function Respond(c: Control, count: nat, r: nat): Control {
    if c.state.Failed? then c
    else if Suspended(c.state) then Resume(c, count, r)
    else if count == 8 then Command(c, Low(r))
    else if count % 8 == 0 && count != 0 then Data(c, count, r)
    else c
  }

  function RespondOut(mem: Memory, c: Control, count: nat, r: nat, o: nat): nat {
    if Suspended(c.state) then 0
    else if count == 8 then Load(o, [CommandOut(c, Low(r))])
    else if count % 8 == 0 && count != 0 then Load(o, DataOut(mem, c, count, r))
    else o
  }

  function Counted(mode: Mode, count: nat): nat {
    (count + Width(mode)) % CountWrap
  }

  /** What a device makes of the bits clocked in: its next control state, and its output register. */
  datatype Logic = Logic(respond: (Control, nat, nat) -> Control, out: (Memory, Control, nat, nat, nat) -> nat)

  function Flash(): Logic {
    Logic(Respond, RespondOut)
  }

  /** The device with these bits clocked in and out. */
  function Struck(l: Logic, c: Chip, count: nat, ireg: nat, oreg: nat): Chip {
    Chip(c.mem, l.respond(c.ctl, count, ireg), false, count, ireg, l.out(c.mem, c.ctl, count, ireg, oreg))
  }

  /** A falling clock edge. */
  function Edge(l: Logic, c: Chip, dat: Pins): Chip {
    Struck(l, c, Counted(c.ctl.mode, c.count), ShiftIn(c.ctl.mode, c.ireg, dat), ShiftOut(c.ctl.mode, c.oreg))
  }

  /** The wires as the device drives them. */
  function Wires(mode: Mode, oreg: nat, dat: Pins): Pins {
    match mode
    case Quad => oreg / 256 % 16
    case Dual => dat - dat % 4 + oreg / 256 % 4
    case Spi => dat - dat / 2 % 2 * 2 + oreg / 256 % 2 * 2
  }

  function Drive(c: Chip, dat: Pins): Pins {
    Wires(c.ctl.mode, c.oreg, dat)
  }

  datatype Ticked = Ticked(chip: Chip, dat: Pins)

  function Deselect(c: Chip): Chip {
    Chip(Effect(c.mem, c.ctl), Finish(c.ctl), true, 0, 0, 0xfe)
  }

  /** Time passes in the device. */
  function Age(c: Chip): Chip {
    c.(ctl := c.ctl.(status := CountDown(c.ctl.status)))
  }

  function Tick(l: Logic, c0: Chip, csn: bool, sck: bool, dat: Pins): Ticked {
    var c := Age(c0);
    if csn then Ticked(Deselect(c), dat)
    else
      var d := if !c.lastSck || sck then c.(lastSck := sck) else Edge(l, c, dat);
      Ticked(d, Drive(d, dat))
  }

  /** The device as the constructor leaves it; the fields the constructor does not set are given. */
  function PowerUp(pmem: Page, addr: nat, count: nat): Chip {
    Chip(Blank(), Control(Idle, Spi, Status(false, false, 0x07, false, 0), 1, 0, addr, pmem),
         true, count, 0, 0)
  }
}
