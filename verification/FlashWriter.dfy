/** Erasing, programming and writing: what sw/host/flashdrvr.cpp promises of the memory. */
module FlashWriter {
  import opened Arith
  import opened Bitwise
  import opened FlashChip
  import opened FlashWire
  import opened FlashSession
  import opened FlashPort
  import opened FlashDriver

  const FlashBase: nat := 0x100_0000
  const DevId: nat := 0x0115_2340

  /** The driver's view of a device ready for reads. */
  ghost predicate Ready(port: Port)
    reads port
  {
    port.logic == Flash() && Quiet(port.flash) && Online(port.flash)
  }

  /** The device has ended the program, with this in its memory. */
  ghost predicate Ended(port: Port, mem: Memory)
    reads port
  {
    port.flash.ctl.state.Failed? && port.flash.mem == mem
  }

  // ---------------------------------------------------------------------------------------------
  // Commands

  /** A writing command, accepted. */
  lemma OpenWrite(c: Chip, op: nat, s: State)
    requires Quiet(c) && Offline(c) && c.ctl.status.wel
    requires (op == 0x02 && s == State.PageProgram) || (op == 0xd8 && s == SectorErase)
    ensures Serial(c) && Addressing(Byted(Flash(), c, op), s) && Byted(Flash(), c, op).mem == c.mem
    ensures Byted(Flash(), c, op).ctl.status == c.ctl.status
  {
    CommandByte(c, op);
  }

  method SendProgramAddress(port: Port, a: nat)
    requires port.logic == Flash() && Quiet(port.flash) && Offline(port.flash) && port.flash.ctl.status.wel && a < MemBytes
    modifies port`flash
    ensures Loading(port.flash, a, []) && port.flash.mem == old(port.flash.mem)
    ensures port.flash.ctl.status == old(port.flash.ctl.status)
  {
    FlashPassive();
    OpenWrite(port.flash, 0x02, State.PageProgram);
    var _ := port.Send(0x02);
    ghost var _, _, _ := ProgramAddressed(port.flash, a);
    var _ := port.Send(a / 0x1_0000 % 256);
    var _ := port.Send(a / 256 % 256);
    var _ := port.Send(a % 256);
  }

  method SendData(port: Port, a: nat, b: Byte, ghost sent: seq<Byte>)
    requires port.logic == Flash() && Loading(port.flash, a, sent) && a % PageBytes + |sent| < PageBytes
    modifies port`flash
    ensures Loading(port.flash, a, sent + [b]) && port.flash.mem == old(port.flash.mem)
    ensures port.flash.ctl.status == old(port.flash.ctl.status)
  {
    FlashPassive();
    LoadMore(port.flash, a, sent, b);
    var _ := port.Send(b);
  }

  lemma ProgramSettles(c: Chip, a: nat, data: seq<Byte>, n: nat)
    requires Loading(c, a, data) && |data| > 0
    ensures var d := Pause(Deselect(Age(c)), n);
            && Offline(d) && Ticking(d.ctl.status) && d.mem == Burned(c.mem, a, data)
            && d.ctl.status.rest == c.ctl.status.rest && !d.ctl.status.wel
  {
    assert Age(c) == c;
    LoadDone(c, a, data);
    DownTicking(Begin(c.ctl.status, tPP), n);
  }

  lemma EraseSettles(c: Chip, a: nat, n: nat)
    requires Quiet(c) && c.ctl.state.SectorErase? && c.ctl.mode.Spi? && c.ctl.addr == a - a % 0x4000
    ensures var d := Pause(Deselect(Age(c)), n);
            Offline(d) && Ticking(d.ctl.status) && d.mem == SectorErased(c.mem, a)
  {
    assert Age(c) == c;
    EraseDone(c, a);
    DownTicking(Begin(c.ctl.status, tSE), n);
  }

  /** An erase command; the device may end the program when it has the address. */
  method SendErase(port: Port, a: nat) returns (ended: bool)
    requires port.logic == Flash() && Quiet(port.flash) && Offline(port.flash) && port.flash.ctl.status.wel && a < MemBytes
    modifies port`flash
    ensures ended <==> a >= EraseLimit
    ensures if ended then Ended(port, old(port.flash.mem))
            else Offline(port.flash) && Ticking(port.flash.ctl.status) && port.flash.mem == SectorErased(old(port.flash.mem), a)
  {
    FlashPassive();
    OpenWrite(port.flash, 0xd8, SectorErase);
    var _ := port.Send(0xd8);
    ghost var _, _, _ := EraseAddressed(port.flash, a);
    var _ := port.Send(a / 0x1_0000 % 256);
    var _ := port.Send(a / 256 % 256);
    var _ := port.Send(a % 256);
    if port.flash.ctl.state.Failed? {
      return true;
    }
    ghost var c := port.flash;
    ghost var n := port.Raise();
    EraseSettles(c, a, n);
    return false;
  }

  /** Read through the memory window, a word at a time. */
  method ReadBytes(port: Port, a: nat, words: nat) returns (buf: seq<Byte>)
    requires Ready(port) && a + 4 * words <= MemBytes
    modifies port`flash
    ensures Ready(port) && port.flash.mem == old(port.flash.mem) && buf == old(port.flash.mem)[a..a + 4 * words]
  {
    ghost var mem := port.flash.mem;
    buf := [];
    for i := 0 to words
      invariant Ready(port) && port.flash.mem == mem && buf == mem[a..a + 4 * i]
    {
      var w := ReadWord(port, a + 4 * i);
      assert mem[a..a + 4 * i] + mem[a + 4 * i..a + 4 * i + 4] == mem[a..a + 4 * (i + 1)];
      buf := buf + w;
    }
  }

  // ---------------------------------------------------------------------------------------------
  // Page program and sector erase

  predicate AllOnes(data: seq<Byte>) {
    forall i :: 0 <= i < |data| ==> data[i] == Ones
  }

  lemma BurnOnes(mem: Memory, a: nat, data: seq<Byte>)
    requires AllOnes(data)
    ensures Burned(mem, a, data) == mem
  {
    var m := Burned(mem, a, data);
    forall i | 0 <= i < MemBytes ensures m[i] == mem[i] {
      AndOnes(mem[i]);
    }
  }

  /** A page program, up to the rise of chip select that starts it. */
  method StartProgram(port: Port, a: nat, data: seq<Byte>)
    requires port.logic == Flash() && Quiet(port.flash) && Offline(port.flash)
    requires 0 < |data| && a % PageBytes + |data| <= PageBytes && a < MemBytes
    modifies port`flash
    ensures Offline(port.flash) && Ticking(port.flash.ctl.status) && port.flash.mem == Burned(old(port.flash.mem), a, data)
    ensures port.flash.ctl.status.rest == old(port.flash.ctl.status.rest) && !port.flash.ctl.status.wel
  {
    ghost var mem := port.flash.mem;
    WriteEnable(port);
    SendProgramAddress(port, a);
    ghost var status := port.flash.ctl.status;
    for i := 0 to |data|
      invariant Loading(port.flash, a, data[..i]) && port.flash.mem == mem && port.flash.ctl.status == status
    {
      SendData(port, a, data[i], data[..i]);
      assert data[..i] + [data[i]] == data[..i + 1];
    }
    assert data[..|data|] == data;
    ghost var c := port.flash;
    ghost var n := port.Raise();
    ProgramSettles(c, a, data, n);
  }

  method ProgramData(port: Port, a: nat, data: seq<Byte>)
    requires port.logic == Flash() && Quiet(port.flash) && Offline(port.flash)
    requires 0 < |data| && a % PageBytes + |data| <= PageBytes && a < MemBytes
    modifies port`flash
    ensures Quiet(port.flash) && Offline(port.flash) && port.flash.mem == Burned(old(port.flash.mem), a, data)
  {
    StartProgram(port, a, data);
    FlWait(port);
  }

  /** Program part of a page.  The three asserts of the code are the preconditions here; words of ones
      only are not sent at all.  The answer is whether what was asked for is there. */
  method ProgramPage(port: Port, a: nat, data: seq<Byte>, verify: bool) returns (ok: bool)
    requires Ready(port) && 0 < |data| <= PageBytes && |data| % 4 == 0
    requires a + |data| <= MemBytes && a / PageBytes == (a + |data| - 1) / PageBytes
    modifies port`flash
    ensures Ready(port) && port.flash.mem == Burned(old(port.flash.mem), a, data)
    ensures ok <==> !verify || AllOnes(data) || port.flash.mem[a..a + |data|] == data
  {
    TakeOffline(port);
    var empty := EmptyPage(data);
    if empty {
      BurnOnes(port.flash.mem, a, data);
      PlaceOnline(port);
      return true;
    }
    ProgramData(port, a, data);
    PlaceOnline(port);
    if verify {
      var buf := ReadBytes(port, a, |data| / 4);
      return buf == data;
    }
    return true;
  }

  /** Are all words of the page ones? */
  method EmptyPage(data: seq<Byte>) returns (empty: bool)
    requires |data| % 4 == 0
    ensures empty <==> AllOnes(data)
  {
    empty := true;
    var i := 0;
    while i < |data|
      invariant i <= |data| && i % 4 == 0 && (empty <==> AllOnes(data[..i]))
    {
      var word := data[i..i + 4];
      if word != [Ones, Ones, Ones, Ones] {
        empty := false;
      }
      OnesMore(data, i);
      i := i + 4;
    }
    assert data[..i] == data;
  }

  lemma OnesMore(data: seq<Byte>, i: nat)
    requires i + 4 <= |data|
    ensures AllOnes(data[..i + 4]) <==> AllOnes(data[..i]) && data[i..i + 4] == [Ones, Ones, Ones, Ones]
  {
    var more, word := data[..i + 4], data[i..i + 4];
    assert word == [data[i], data[i + 1], data[i + 2], data[i + 3]];
    assert more[i] == word[0] && more[i + 1] == word[1] && more[i + 2] == word[2] && more[i + 3] == word[3];
    assert forall k :: 0 <= k < i ==> more[k] == data[..i][k];
    if AllOnes(data[..i]) && word == [Ones, Ones, Ones, Ones] {
      forall k | 0 <= k < i + 4 ensures more[k] == Ones {
        if k >= i {
          assert more[k] == word[k - i];
        }
      }
    }
  }

  // ---------------------------------------------------------------------------------------------
  // Erase

  lemma ErasedReads(mem: Memory, s: nat, i: nat)
    requires s % SectorBytes == 0 && s < MemBytes && s <= i < s + SectorBytes
    ensures i < MemBytes && SectorErased(mem, s)[i] == Ones
  {
    DivModUnique(i, SectorBytes, s / SectorBytes, i - s);
    DivModUnique(s, SectorBytes, s / SectorBytes, 0);
  }

  /** Erase a sector, and look at every page of it if asked to.  What is read back is always ones; but above the
      lower quarter of the memory the device ends the program first. */
  method EraseSector(port: Port, s: nat, verify: bool) returns (ended: bool, ok: bool)
    requires Ready(port) && s % SectorBytes == 0 && s < MemBytes
    modifies port`flash
    ensures ended <==> s >= EraseLimit
    ensures if ended then Ended(port, old(port.flash.mem))
            else Ready(port) && port.flash.mem == SectorErased(old(port.flash.mem), s) && ok
  {
    TakeOffline(port);
    WriteEnable(port);
    ended := SendErase(port, s);
    if ended {
      return true, false;
    }
    FlWait(port);
    PlaceOnline(port);
    ok := true;
    if verify {
      ok := LooksErased(port, s, old(port.flash.mem));
    }
  }

  method LooksErased(port: Port, s: nat, ghost mem: Memory) returns (ok: bool)
    requires Ready(port) && s % SectorBytes == 0 && s < MemBytes && port.flash.mem == SectorErased(mem, s)
    modifies port`flash
    ensures Ready(port) && port.flash.mem == SectorErased(mem, s) && ok
  {
    for p := 0 to 256
      invariant Ready(port) && port.flash.mem == SectorErased(mem, s)
    {
      var page := ReadBytes(port, s + 256 * p, 64);
      var blank := EmptyPage(page);
      if !blank {
        ghost var k :| 0 <= k < |page| && page[k] != Ones;
        ErasedReads(mem, s, s + 256 * p + k);
        return false;
      }
    }
    return true;
  }
}
