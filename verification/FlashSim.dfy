/** FLASHSIM as the object it is: memory and page buffer are arrays that the calls of operator() change in
    place, and each call is one `Tick` of the device. */
module FlashSim {
  import opened Bitwise
  import opened FlashChip

  class FlashSim {
    const mem: array<Byte>
    const pmem: array<Byte>
    var state: State
    var mode: Mode
    var status: Status
    var creg: nat
    var modeByte: nat
    var addr: nat
    var lastSck: bool
    var count: nat
    var ireg: nat
    var oreg: nat

    ghost predicate Valid() {
      mem.Length == MemBytes && pmem.Length == PageBytes && mem != pmem
    }

    ghost function Ctl(): Control
      requires Valid()
      reads this, pmem
    {
      Control(state, mode, status, creg, modeByte, addr, pmem[..])
    }

    ghost function View(): Chip
      requires Valid()
      reads this, mem, pmem
    {
      Chip(mem[..], Ctl(), lastSck, count, ireg, oreg)
    }

    constructor ()
      ensures Valid() && fresh(mem) && fresh(pmem)
      ensures View() == PowerUp(pmem[..], addr, count)
    {
      mem := new Byte[MemBytes](_ => Ones);
      pmem := new Byte[PageBytes](_ => 0);
      state, mode, status := Idle, Spi, Status(false, false, 7, false, 0);
      creg, modeByte, addr := 1, 0, 0;
      lastSck, count, ireg, oreg := true, 0, 0, 0;
      new;
      assert mem[..] == Blank();
    }

    /** And the page buffer into its page of the memory. */
    method ProgramPage()
      requires Valid()
      modifies mem
      ensures mem[..] == Programmed(old(mem[..]), addr, pmem[..])
    {
      var base := addr - addr % PageBytes;
      if base < MemBytes {
        InPage(base);
        for i := 0 to PageBytes
          invariant forall j :: 0 <= j < MemBytes ==>
                      mem[j] == if base <= j < base + i then And(old(mem[..])[j], pmem[j - base]) else old(mem[..])[j]
        {
          mem[base + i] := And(mem[base + i], pmem[i]);
        }
      }
      PageIs(old(mem[..]), addr, pmem[..], base, mem[..]);
    }

    method EraseSector()
      requires Valid()
      modifies mem
      ensures mem[..] == SectorErased(old(mem[..]), addr)
    {
      var base := addr - addr % SectorBytes;
      if base < MemBytes {
        InSector(base);
        for i := 0 to SectorBytes
          invariant forall j :: 0 <= j < MemBytes ==> mem[j] == if base <= j < base + i then Ones else old(mem[..])[j]
        {
          mem[base + i] := Ones;
        }
      }
      SectorIs(old(mem[..]), addr, base, mem[..]);
    }

    method EraseAll()
      requires Valid()
      modifies mem
      ensures mem[..] == Blank()
    {
      for i := 0 to MemBytes
        invariant forall j :: 0 <= j < i ==> mem[j] == Ones
      {
        mem[i] := Ones;
      }
    }

    method Begin(ticks: nat)
      modifies this`state, this`status
      ensures state == Idle && status == FlashChip.Begin(old(status), ticks)
    {
      status := status.(writeCount := ticks);
      state := Idle;
      status := status.(wel := false);
      status := status.(wip := true);
    }

    /** Carry out a program or an erase. */
    method Carry()
      requires Valid() && Writing(state)
      modifies this`state, this`status, this`mode, this`addr, mem
      ensures mem[..] == Effect(old(mem[..]), old(Ctl())) && Ctl() == Finish(old(Ctl()))
    {
      if state.SectorErase? {
        Begin(tSE);
        EraseSector();
        addr := addr - addr % SectorBytes;
      } else if state.BulkErase? {
        Begin(tBE);
        EraseAll();
      } else {
        Begin(tPP);
        ProgramPage();
        mode := Spi;
      }
    }

    /** Whatever else chip select ends. */
    method Drop()
      requires Valid() && !Writing(state)
      modifies this`state, this`status, this`mode
      ensures Ctl() == Finish(old(Ctl()))
    {
      if state.WriteStatus? {
        Begin(tW);
      } else if state.ClearStatus? {
        state := Idle;
        status := status.(rest := And(status.rest, 0x27), asleep := false);
      } else if state.Release? {
        status := status.(writeCount := tRES);
        state := Idle;
      } else if state.QuadReadCmd? || state.QuadRead? {
        LeaveRead(QuadReadIdle);
      } else if state.DualReadCmd? || state.DualRead? {
        LeaveRead(DualReadIdle);
      }
    }

    /** Chip select high. */
    method Deselect()
      requires Valid()
      modifies this, mem
      ensures View() == FlashChip.Deselect(old(View()))
    {
      lastSck, ireg, oreg, count := true, 0, 0, 0;
      if Writing(state) {
        Carry();
      } else {
        Drop();
      }
      oreg := 0xfe;
    }

    method LeaveRead(idle: State)
      modifies this`mode, this`state
      ensures if modeByte / 16 == 10 then mode == old(mode) && state == idle else mode == Spi && state == old(state)
    {
      if modeByte / 16 != 10 {
        mode := Spi;
      } else {
        state := idle;
      }
    }

    method Put(b: nat)
      modifies this`oreg
      ensures oreg == Load(old(oreg), [b])
    {
      oreg := oreg - oreg % 256 + b;
    }

    method Guard(next: State)
      modifies this`state
      ensures state == if Writable(status) then next else Invalid
    {
      if !status.wel || status.wip || status.asleep {
        state := Invalid;
      } else {
        state := next;
      }
    }

    /** The command switch. */
    method Command()
      requires Valid() && !state.Failed?
      modifies this`state, this`status, this`mode, this`oreg
      ensures Ctl() == FlashChip.Command(old(Ctl()), Low(ireg))
      ensures oreg == Load(old(oreg), [CommandOut(old(Ctl()), Low(ireg))])
    {
      Put(0xa5);
      ghost var o := oreg;
      var op := ireg % 256;
      if status.asleep && op != 0xab {
      } else if op == 0x01 {
        Guard(WriteStatus);
      } else if op == 0x02 {
        Guard(PageProgram);
      } else if op == 0x03 {
        state := SlowRead;
      } else if op == 0x04 {
        state := Idle;
        status := status.(wel := false);
      } else if op == 0x05 {
        state := ReadStatus;
        Put(Register(status));
      } else if op == 0x06 {
        state := Idle;
        status := status.(wel := true);
      } else if op == 0x0b {
        state := FastRead;
      } else if op == 0x30 {
        state := ClearStatus;
      } else if op == 0x32 {
        Guard(QuadPageProgram);
      } else if op == 0x35 {
        state := ReadConfig;
        Put(creg);
      } else if op == 0x50 || op == 0x61 || op == 0x70 {
        state := Idle;
        Put(0);
      } else if op == 0x81 {
        Put(0);
      } else if op == 0x9f {
        state := ReadId;
        Put(0x01);
      } else {
        CommandRest(op);
      }
      PutTwice(old(oreg), 0xa5, CommandOut(old(Ctl()), op));
    }

    method CommandRest(op: nat)
      requires Valid() && (status.asleep ==> op == 0xab)
      requires op !in {0x01, 0x02, 0x03, 0x04, 0x05, 0x06, 0x0b, 0x30, 0x32, 0x35, 0x50, 0x61, 0x70, 0x81, 0x9f}
      modifies this`state, this`status, this`mode
      ensures Ctl() == FlashChip.Command(old(Ctl()), op)
    {
      if op == 0xab {
        if status.asleep {
          status := status.(asleep := false);
          status := status.(writeCount := tRES);
        }
        state := Release;
      } else if op == 0xb9 {
        if status.wip {
          state := Invalid;
        } else {
          status := status.(asleep := true);
          state := Idle;
        }
      } else if op == 0xbb {
        state, mode := DualReadCmd, Dual;
      } else if op == 0xc7 {
        Guard(BulkErase);
      } else if op == 0xd8 {
        Guard(SectorErase);
      } else if op == 0xeb {
        state, mode := QuadReadCmd, Quad;
      } else if op == 0x00 || op == 0xff {
        state, mode := Idle, Spi;
      } else {
        state := Failed;
      }
    }

    /** The byte switch, by the state the command left. */
    method Data()
      requires Valid() && !state.Failed?
      modifies this, pmem
      ensures Ctl() == FlashChip.Data(old(Ctl()), count, ireg)
      ensures oreg == Load(old(oreg), DataOut(mem[..], old(Ctl()), count, ireg))
      ensures lastSck == old(lastSck) && count == old(count) && ireg == old(ireg)
    {
      ghost var c := Ctl();
      var o := oreg;
      Put(0);
      if Reading(state) {
        ReadOn();
      } else {
        if state.ReadStatus? {
          Put(Register(status));
        } else if state.ReadConfig? {
          Put(creg);
        } else if state.ReadId? {
          Put(if count == 16 then 0x15 else if count == 24 then 0x23 else if count == 32 then 0x40 else 0);
        } else if state.Release? {
          if count >= 32 {
            Put(0x14);
          }
        } else {
          Store();
        }
        PutTwice(o, 0, DataOut(mem[..], c, count, ireg)[0]);
      }
    }

    /** A byte for a command that writes. */
    method Store()
      requires Valid() && !Reading(state)
      modifies this`state, this`status, this`creg, this`mode, this`addr, pmem
      ensures Ctl() == FlashChip.Data(old(Ctl()), count, ireg)
    {
      if state.WriteStatus? {
        WriteRegisters();
      } else if state.PageProgram? {
        Collect();
      } else if state.QuadPageProgram? {
        if count == 32 {
          mode := Quad;
        }
        Collect();
      } else if state.SectorErase? {
        if count == 32 {
          Aim();
        }
      } else if state.ClearStatus? {
        state := Failed;
      }
    }

    /** The address of an erase. */
    method Aim()
      requires Valid() && state.SectorErase?
      modifies this`addr, this`state
      ensures Ctl() == EraseAt(old(Ctl()), Address(ireg) - Address(ireg) % 0x4000)
    {
      addr := ireg % MemBytes;
      addr := addr - addr % 0x4000;
      if And(addr, 0xfc0_0000) != 0 {
        state := Failed;
      }
    }

    method WriteRegisters()
      requires Valid()
      modifies this`state, this`status, this`creg
      ensures Ctl() == FlashChip.WriteRegisters(old(Ctl()), count, Low(ireg))
    {
      if count == 16 {
        status := status.(rest := And(status.rest, 0x18) + And(ireg % 256 / 4, 0x27), wel := false, asleep := false);
      } else if count == 24 {
        creg := And(creg, 0xfd) + And(ireg % 256, 2);
      } else {
        state := Failed;
      }
    }

    /** A byte of a program command: the address comes first, then the page buffer fills. */
    method Collect()
      requires Valid()
      modifies this`addr, pmem
      ensures Ctl() == if count == 32 then old(Ctl()).(addr := Address(ireg), pmem := BlankPage())
                       else if count >= 40 then Fill(old(Ctl()), Low(ireg)) else old(Ctl())
    {
      if count == 32 {
        addr := ireg % MemBytes;
        for i := 0 to PageBytes
          invariant forall j :: 0 <= j < i ==> pmem[j] == Ones
          invariant addr == Address(ireg)
        {
          pmem[i] := Ones;
        }
        assert pmem[..] == BlankPage();
      } else if count >= 40 {
        pmem[addr % PageBytes] := ireg % 256;
        addr := addr - addr % PageBytes + (addr + 1) % PageBytes;
      }
    }

    /** Fetch the next byte of memory, if there is one to fetch. */
    method ReadOn()
      requires Valid() && Reading(state)
      modifies this`addr, this`modeByte, this`oreg
      ensures Ctl() == FlashChip.ReadOn(old(Ctl()), count, ireg)
      ensures oreg == Load(old(oreg), DataOut(mem[..], old(Ctl()), count, ireg))
    {
      ghost var c := Ctl();
      if count == 32 {
        if state.DualRead? || state.QuadRead? {
          modeByte := ireg % 256;
        } else {
          addr := ireg % MemBytes;
        }
      } else if count == 40 && ((state.DualReadCmd? && !status.wip) || state.QuadReadCmd?) {
        modeByte := ireg % 256;
      }
      if Fetches(state, count, status.wip) {
        var b := if addr < MemBytes then mem[addr] else 0;
        Put(b);
        addr := addr + 1;
      } else if count == 32 && (state.FastRead? || state.DualReadCmd? || state.QuadReadCmd?) {
        Put(if state.FastRead? then 0xc3 else 0);
      } else {
        oreg := 0;
      }
    }

    /** A falling clock edge. */
    method ClockEdge(dat: Pins)
      requires Valid() && !state.Failed?
      modifies this, pmem
      ensures View() == Edge(Flash(), old(View()), dat)
    {
      ireg := ShiftIn(mode, ireg, dat);
      count := (count + Width(mode)) % CountWrap;
      oreg := ShiftOut(mode, oreg);
      lastSck := false;
      if Suspended(state) {
        Continue();
      } else if count == 8 {
        Command();
      } else if count % 8 == 0 && count != 0 {
        Data();
      }
    }

    /** A bit of the address of a continued read. */
    method Continue()
      requires Valid() && Suspended(state)
      modifies this`addr, this`state, this`oreg
      ensures Ctl() == Resume(old(Ctl()), count, ireg) && oreg == 0
    {
      if status.asleep || mode != (if state.QuadReadIdle? then Quad else Dual) {
        state := Failed;
      } else if count == 24 {
        addr := ireg % MemBytes;
        state := if state.QuadReadIdle? then QuadRead else DualRead;
      }
      oreg := 0;
    }

    /** One call of operator(), as long as none before has ended the program. */
    method Operator(csn: bool, sck: bool, dat: Pins) returns (r: Pins)
      requires Valid() && !state.Failed?
      modifies this, mem, pmem
      ensures Ticked(View(), r) == Tick(Flash(), old(View()), csn, sck, dat)
    {
      if status.writeCount > 0 {
        status := status.(writeCount := status.writeCount - 1);
        if status.writeCount == 0 {
          status := status.(wel := false, wip := false, asleep := false);
        }
      }
      ghost var c := View();
      assert c == Age(old(View()));
      if csn {
        Deselect();
        return dat;
      }
      if !lastSck || sck == lastSck {
        lastSck := sck;
      } else {
        ClockEdge(dat);
      }
      r := Wires(mode, oreg, dat);
    }
  }

  lemma PutTwice(o: nat, x: Byte, y: nat)
    ensures Load(Load(o, [x]), [y]) == Load(o, [y])
  {
  }

  lemma InPage(base: nat)
    requires base % PageBytes == 0 && base < MemBytes
    ensures base + PageBytes <= MemBytes
  {
  }

  lemma InSector(base: nat)
    requires base % SectorBytes == 0 && base < MemBytes
    ensures base + SectorBytes <= MemBytes
  {
  }

  lemma PageIs(before: Memory, addr: nat, pmem: Page, base: nat, now: Memory)
    requires base == addr - addr % PageBytes
    requires forall j :: 0 <= j < MemBytes ==>
               now[j] == if base <= j < base + PageBytes then And(before[j], pmem[j - base]) else before[j]
    ensures now == Programmed(before, addr, pmem)
  {
  }

  lemma SectorIs(before: Memory, addr: nat, base: nat, now: Memory)
    requires base == addr - addr % SectorBytes
    requires forall j :: 0 <= j < MemBytes ==> now[j] == if base <= j < base + SectorBytes then Ones else before[j]
    ensures now == SectorErased(before, addr)
  {
  }
}
