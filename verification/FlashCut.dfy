/** What chip select does to the memory after any number of bytes of a program or an erase command.  With fewer than
    three address bytes the command is carried out all the same, where the last one with an address went. */
module FlashCut {
  import opened Arith
  import opened Bitwise
  import opened FlashChip
  import opened FlashWire
  import opened FlashSession

  /** Ready for a command that writes. */
  predicate Armed(c: Chip) {
    Quiet(c) && Offline(c) && c.ctl.status.wel
  }

  function Sent(c: Chip, bs: seq<Byte>): Chip {
    if bs == [] then c else Byted(Flash(), Sent(c, bs[..|bs| - 1]), bs[|bs| - 1])
  }

  /** The memory after a command byte, these bytes, and chip select. */
  function Outcome(c: Chip, op: Byte, bs: seq<Byte>): Memory {
    Deselect(Sent(Byted(Flash(), c, op), bs)).mem
  }

  /** The device counts its clocks in 32 bits; two bytes later they have come round, and it takes another command. */
  const Longest: nat := 0x1fff_fffe

  /** The address in the first three bytes. */
  function Target(bs: seq<Byte>): (a: nat)
    requires |bs| >= 3
    ensures a < MemBytes
  {
    var h: nat, m: nat, l: nat := bs[0], bs[1], bs[2];
    0x1_0000 * h + 256 * m + l
  }

  /** These three bytes are this address. */
  predicate Names(bs: seq<Byte>, a: nat) {
    |bs| == 3 && a < MemBytes && a / 0x1_0000 % 256 == bs[0] && a / 256 % 256 == bs[1] && a % 256 == bs[2]
  }

  lemma TargetBytes(bs: seq<Byte>)
    requires |bs| >= 3
    ensures Names(bs[..3], Target(bs))
  {
    var h: nat, m: nat, l: nat := bs[0], bs[1], bs[2];
    DivModUnique(Target(bs), 256, 256 * h + m, l);
    DivModUnique(256 * h + m, 256, h, m);
    DivModUnique(Target(bs), 0x1_0000, h, 256 * m + l);
    SmallMod(h, 256);
  }

  // ---------------------------------------------------------------------------------------------
  // Up to the address

  lemma SentNext(c: Chip, bs: seq<Byte>, k: nat)
    requires k < |bs|
    ensures Sent(c, bs[..k + 1]) == Byted(Flash(), Sent(c, bs[..k]), bs[k])
  {
    assert bs[..k + 1][..k] == bs[..k];
  }

  lemma ShortSent(c: Chip, s: State, bs: seq<Byte>)
    requires Addressing(c, s) && (Programming(s) || s.SectorErase?) && |bs| < 3
    ensures Sent(c, bs).ctl == c.ctl && Sent(c, bs).mem == c.mem
  {
    assert Sent(c, bs[..0]) == c && bs[..|bs|] == bs;
    if |bs| >= 1 {
      var d := AddressByte(c, bs[0]);
      SentNext(c, bs, 0);
      if |bs| == 2 {
        var _ := AddressByte(d, bs[1]);
        SentNext(c, bs, 1);
      }
    }
  }

  lemma ThreeSent(c: Chip, bs: seq<Byte>, c1: Chip, c2: Chip, c3: Chip)
    requires |bs| == 3 && c1 == Byted(Flash(), c, bs[0]) && c2 == Byted(Flash(), c1, bs[1]) && c3 == Byted(Flash(), c2, bs[2])
    ensures Sent(c, bs) == c3
  {
    assert Sent(c, bs[..0]) == c;
    SentNext(c, bs, 0);
    SentNext(c, bs, 1);
    SentNext(c, bs, 2);
    assert bs[..3] == bs;
  }

  // ---------------------------------------------------------------------------------------------
  // Program

  /** The page buffer after these bytes from address a on: it fills in a circle, and the last byte to a place stays. */
  function Paged(a: nat, data: seq<Byte>): Page {
    if data == [] then BlankPage()
    else Paged(a, data[..|data| - 1])[(a + |data| - 1) % PageBytes := data[|data| - 1]]
  }

  predicate Filling(c: Chip, a: nat, n: nat, pmem: Page) {
    && Serial(c) && Quiet(c) && c.ctl.state.PageProgram? && c.count == 32 + 8 * n
    && c.ctl.addr == a - a % PageBytes + (a + n) % PageBytes && c.ctl.pmem == pmem
  }

  lemma FillOn(c: Chip, a: nat, n: nat, pmem: Page, b: Byte)
    requires Filling(c, a, n, pmem) && c.count + 16 < CountWrap
    ensures Filling(Byted(Flash(), c, b), a, n + 1, pmem[(a + n) % PageBytes := b]) && Byted(Flash(), c, b).mem == c.mem
  {
    DataByte(c, b);
    FillsPage(c.ctl, c.count + 8, c.ireg, b);
    Offsets(a, n, c.ctl.addr);
    ModMultiple(c.count, 8, 1);
  }

  lemma Offsets(a: nat, n: nat, addr: nat)
    requires addr == a - a % PageBytes + (a + n) % PageBytes
    ensures addr % PageBytes == (a + n) % PageBytes && addr - addr % PageBytes == a - a % PageBytes
    ensures (addr + 1) % PageBytes == (a + n + 1) % PageBytes && addr / PageBytes == a / PageBytes
  {
    var q, r := a / PageBytes, (a + n) % PageBytes;
    DivModUnique(addr, PageBytes, q, r);
    ModMultiple(r + 1, PageBytes, q);
    ModMultiple(r + 1, PageBytes, (a + n) / PageBytes);
  }

  lemma {:induction false} LongProgram(c: Chip, bs: seq<Byte>)
    requires Addressing(c, PageProgram) && 3 <= |bs| < Longest
    ensures var d := Sent(c, bs);
            Filling(d, Target(bs), |bs| - 3, Paged(Target(bs), bs[3..])) && d.mem == c.mem
  {
    if |bs| == 3 {
      FillStarts(c, bs);
    } else {
      var n := |bs| - 1;
      LongProgram(c, bs[..n]);
      assert Target(bs[..n]) == Target(bs);
      PagedMore(Target(bs), bs);
      FillNext(Sent(c, bs[..n]), Target(bs), n - 3, Paged(Target(bs), bs[..n][3..]), bs[n], Sent(c, bs), Paged(Target(bs), bs[3..]));
    }
  }

  lemma FillNext(c: Chip, a: nat, n: nat, pmem: Page, b: Byte, d: Chip, page: Page)
    requires Filling(c, a, n, pmem) && n + 4 < Longest && d == Byted(Flash(), c, b)
    requires page == pmem[(a + n) % PageBytes := b]
    ensures Filling(d, a, n + 1, page) && d.mem == c.mem
  {
    FillOn(c, a, n, pmem, b);
  }

  lemma FillStarts(c: Chip, bs: seq<Byte>)
    requires Addressing(c, PageProgram) && |bs| == 3
    ensures var d := Sent(c, bs); Filling(d, Target(bs), 0, Paged(Target(bs), bs[3..])) && d.mem == c.mem
  {
    TargetBytes(bs);
    assert bs[..3] == bs;
    FillsFrom(c, bs, Target(bs));
  }

  lemma FillsFrom(c: Chip, bs: seq<Byte>, a: nat)
    requires Addressing(c, PageProgram) && Names(bs, a)
    ensures Filling(Sent(c, bs), a, 0, BlankPage()) && Sent(c, bs).mem == c.mem
  {
    var c1, c2, c3 := ProgramAddressed(c, a);
    ThreeSent(c, bs, c1, c2, c3);
    assert Buffered(a, []) == BlankPage();
  }

  lemma PagedMore(a: nat, bs: seq<Byte>)
    requires |bs| > 3
    ensures var n := |bs| - 1; Paged(a, bs[3..]) == Paged(a, bs[..n][3..])[(a + (n - 3)) % PageBytes := bs[n]]
  {
    var n := |bs| - 1;
    assert bs[..n][3..] == bs[3..][..n - 3];
  }

  lemma SamePage(mem: Memory, x: nat, y: nat, pmem: Page)
    requires x / PageBytes == y / PageBytes
    ensures Programmed(mem, x, pmem) == Programmed(mem, y, pmem)
  {
  }

  /** A page program, however many bytes it has. */
  lemma ProgramEnds(c: Chip, bs: seq<Byte>)
    requires Armed(c) && |bs| < Longest
    ensures Outcome(c, 0x02, bs) ==
            if |bs| < 3 then Programmed(c.mem, c.ctl.addr, c.ctl.pmem)
            else Programmed(c.mem, Target(bs), Paged(Target(bs), bs[3..]))
  {
    CommandByte(c, 0x02);
    var o := Byted(Flash(), c, 0x02);
    var d := Sent(o, bs);
    if |bs| < 3 {
      ShortSent(o, State.PageProgram, bs);
    } else {
      LongProgram(o, bs);
      Offsets(Target(bs), |bs| - 3, d.ctl.addr);
      SamePage(c.mem, d.ctl.addr, Target(bs), d.ctl.pmem);
    }
  }

  /** The four-wire form, as far as its bytes go over one wire: cut short it is carried out just the same, and with an
      address and no data it does nothing. */
  lemma QuadProgramEnds(c: Chip, bs: seq<Byte>)
    requires Armed(c) && |bs| <= 3
    ensures Outcome(c, 0x32, bs) == if |bs| < 3 then Programmed(c.mem, c.ctl.addr, c.ctl.pmem) else c.mem
  {
    CommandByte(c, 0x32);
    var o := Byted(Flash(), c, 0x32);
    if |bs| < 3 {
      ShortSent(o, QuadPageProgram, bs);
    } else {
      QuadAddressed(o, bs);
    }
  }

  lemma QuadAddressed(c: Chip, bs: seq<Byte>)
    requires Addressing(c, QuadPageProgram) && |bs| == 3
    ensures Deselect(Sent(c, bs)).mem == c.mem
  {
    var c1 := AddressByte(c, bs[0]);
    var c2 := AddressByte(c1, bs[1]);
    DataByte(c2, bs[2]);
    var c3 := Byted(Flash(), c2, bs[2]);
    ThreeSent(c, bs, c1, c2, c3);
    QuadTaken(c2.ctl, 256 * c2.ireg + bs[2]);
    BlankChanges(c.mem, c3.ctl.addr);
  }

  lemma QuadTaken(c: Control, r: nat)
    requires c.state.QuadPageProgram?
    ensures Data(c, 32, r).state == QuadPageProgram && Data(c, 32, r).pmem == BlankPage()
  {
  }

  lemma BlankChanges(mem: Memory, addr: nat)
    ensures Programmed(mem, addr, BlankPage()) == mem
  {
    var m := Programmed(mem, addr, BlankPage());
    forall i | 0 <= i < MemBytes ensures m[i] == mem[i] {
      AndOnes(mem[i]);
    }
  }

  // ---------------------------------------------------------------------------------------------
  // Erase

  /** The erase address is in, and more bytes have come. */
  predicate Aiming(c: Chip, ctl: Control, n: nat) {
    c.ctl == ctl && c.lastSck && c.count == 32 + 8 * n
  }

  lemma AimOn(c: Chip, ctl: Control, n: nat, b: Byte)
    requires Aiming(c, ctl, n) && ctl.mode.Spi? && (ctl.state.SectorErase? || ctl.state.Failed?)
    ensures Aiming(Byted(Flash(), c, b), ctl, n + 1) && Byted(Flash(), c, b).mem == c.mem
  {
    BytedIs(Flash(), c, b);
    EraseIgnores(ctl, c.count + 8, 256 * c.ireg + b);
  }

  lemma EraseIgnores(c: Control, count: nat, r: nat)
    requires c.state.SectorErase? || c.state.Failed?
    ensures count > 32 ==> Respond(c, count, r) == c
  {
  }

  lemma {:induction false} LongErase(c: Chip, bs: seq<Byte>)
    requires Addressing(c, SectorErase) && 3 <= |bs|
    ensures Aiming(Sent(c, bs), Aimed(c.ctl, Target(bs)), |bs| - 3) && Sent(c, bs).mem == c.mem
  {
    if |bs| == 3 {
      TargetBytes(bs);
      assert bs[..3] == bs;
      AimsAt(c, bs, Target(bs));
    } else {
      var n := |bs| - 1;
      LongErase(c, bs[..n]);
      AimOn(Sent(c, bs[..n]), Aimed(c.ctl, Target(bs)), n - 3, bs[n]);
    }
  }

  lemma AimsAt(c: Chip, bs: seq<Byte>, a: nat)
    requires Addressing(c, SectorErase) && Names(bs, a)
    ensures Aiming(Sent(c, bs), Aimed(c.ctl, a), 0) && Sent(c, bs).mem == c.mem
  {
    var c1, c2, c3 := EraseAddressed(c, a);
    ThreeSent(c, bs, c1, c2, c3);
  }

  lemma SameSector(mem: Memory, a: nat)
    ensures SectorErased(mem, a - a % 0x4000) == SectorErased(mem, a)
  {
    assert (a - a % 0x4000) / SectorBytes == a / SectorBytes;
  }

  /** A sector erase, however many bytes it has. */
  lemma EraseEnds(c: Chip, bs: seq<Byte>)
    requires Armed(c) && |bs| < Longest
    ensures Outcome(c, 0xd8, bs) ==
            if |bs| < 3 then SectorErased(c.mem, c.ctl.addr)
            else if Target(bs) < EraseLimit then SectorErased(c.mem, Target(bs))
            else c.mem
  {
    CommandByte(c, 0xd8);
    var o := Byted(Flash(), c, 0xd8);
    if |bs| < 3 {
      ShortSent(o, SectorErase, bs);
    } else {
      LongErase(o, bs);
      SameSector(c.mem, Target(bs));
    }
  }

  /** A bulk erase needs no address: chip select then sets every byte of the memory to ones. */
  lemma BulkEnds(c: Chip, bs: seq<Byte>, i: nat)
    requires Armed(c) && |bs| < Longest && i < MemBytes
    ensures Outcome(c, 0xc7, bs)[i] == 0xff
  {
    CommandByte(c, 0xc7);
    BulkIgnores(Byted(Flash(), c, 0xc7), bs);
  }

  lemma {:induction false} BulkIgnores(c: Chip, bs: seq<Byte>)
    requires c.ctl.state.BulkErase? && c.lastSck && c.count == 8
    ensures Sent(c, bs).ctl == c.ctl && Sent(c, bs).mem == c.mem && Sent(c, bs).count == 8 + 8 * |bs|
  {
    if bs != [] {
      var n := |bs| - 1;
      BulkIgnores(c, bs[..n]);
      var d := Sent(c, bs[..n]);
      BytedIs(Flash(), d, bs[n]);
      BulkStays(d.ctl, d.count + 8, 256 * d.ireg + bs[n]);
    }
  }

  lemma BulkStays(c: Control, count: nat, r: nat)
    requires c.state.BulkErase?
    ensures count > 8 ==> Respond(c, count, r) == c
  {
  }

  // ---------------------------------------------------------------------------------------------
  // When the bytes decide

  /** A device ready to write, with this left over from earlier commands. */
  function Left(mem: Memory, addr: nat, pmem: Page): Chip {
    Chip(mem, Control(Idle, Spi, Status(false, true, 7, false, 0), 1, 0, addr, pmem), true, 0, 0, 0xfe)
  }

  function Zeros(n: nat): seq<Byte> {
    seq(n, _ => 0)
  }

  /** What becomes of the memory depends on the bytes alone, and not on what earlier commands have left in the
      device. */
  ghost predicate BytesDecide(op: Byte, bs: seq<Byte>) {
    forall c, d :: Armed(c) && Armed(d) && c.mem == d.mem ==> Outcome(c, op, bs) == Outcome(d, op, bs)
  }

  lemma AddressDecides(op: Byte, bs: seq<Byte>, c: Chip, d: Chip)
    requires op in {0x02, 0xd8} && 3 <= |bs| < Longest && Armed(c) && Armed(d) && c.mem == d.mem
    ensures Outcome(c, op, bs) == Outcome(d, op, bs)
  {
    if op == 0x02 {
      ProgramEnds(c, bs);
      ProgramEnds(d, bs);
    } else {
      EraseEnds(c, bs);
      EraseEnds(d, bs);
    }
  }

  lemma Undecided(c: Chip, d: Chip, op: Byte, bs: seq<Byte>)
    requires Armed(c) && Armed(d) && c.mem == d.mem && Outcome(c, op, bs)[0] != Outcome(d, op, bs)[0]
    ensures !BytesDecide(op, bs)
  {
  }

  lemma StaleProgram(bs: seq<Byte>)
    requires |bs| < 3
    ensures !BytesDecide(0x02, bs)
  {
    var c, d := Left(Blank(), 0, Zeros(PageBytes)), Left(Blank(), PageBytes, Zeros(PageBytes));
    ProgramEnds(c, bs);
    ProgramEnds(d, bs);
    assert Outcome(c, 0x02, bs)[0] == 0 && Outcome(d, 0x02, bs)[0] == Ones;
    Undecided(c, d, 0x02, bs);
  }

  lemma StaleErase(bs: seq<Byte>)
    requires |bs| < 3
    ensures !BytesDecide(0xd8, bs)
  {
    var c, d := Left(Zeros(MemBytes), 0, BlankPage()), Left(Zeros(MemBytes), SectorBytes, BlankPage());
    EraseEnds(c, bs);
    EraseEnds(d, bs);
    assert Outcome(c, 0xd8, bs)[0] == Ones && Outcome(d, 0xd8, bs)[0] == 0;
    Undecided(c, d, 0xd8, bs);
  }

  /** They decide if and only if all three address bytes were sent. */
  lemma BytesDecideIff(op: Byte, bs: seq<Byte>)
    requires op in {0x02, 0xd8} && |bs| < Longest
    ensures BytesDecide(op, bs) <==> |bs| >= 3
  {
    if |bs| >= 3 {
      forall c, d | Armed(c) && Armed(d) && c.mem == d.mem ensures Outcome(c, op, bs) == Outcome(d, op, bs) {
        AddressDecides(op, bs, c, d);
      }
    } else if op == 0x02 {
      StaleProgram(bs);
    } else {
      StaleErase(bs);
    }
  }
}
