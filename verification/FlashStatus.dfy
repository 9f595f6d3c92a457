/** The status register of the flash device as it is read and written over the wires. */
module FlashStatus {
  import opened Arith
  import opened Bitwise
  import opened FlashChip
  import opened FlashWire
  import opened FlashSession
  import opened FlashPort
  import opened FlashDriver
  import opened FlashWriter

  /** The read status command, and the byte that follows it. */
  lemma StatusBytes(c: Chip)
    requires Quiet(c) && Offline(c)
    ensures var d := Byted(Flash(), c, 5);
            var e := Byted(Flash(), d, 0);
            && Serial(c) && Serial(d) && Quiet(d) && Quiet(e) && d.oreg % 256 == Register(c.ctl.status) && e.oreg / 256 == d.oreg
            && e.mem == c.mem && e.ctl == c.ctl.(state := ReadStatus)
  {
    CommandByte(c, 5);
    var d := Byted(Flash(), c, 5);
    Loaded(c.oreg, Register(c.ctl.status));
    DataByte(d, 0);
    Loaded(d.oreg, Register(c.ctl.status));
  }

  /** Ask a device with nothing in progress for its status: no write in progress, the write enable latch, and the rest. */
  method HearStatus(port: Port) returns (v: nat)
    requires port.logic == Flash() && Quiet(port.flash) && Offline(port.flash)
    modifies port`flash
    ensures Quiet(port.flash) && Offline(port.flash) && port.flash.mem == old(port.flash.mem)
    ensures port.flash.ctl.status == old(port.flash.ctl.status)
    ensures v == 4 * port.flash.ctl.status.rest + (if port.flash.ctl.status.wel then 2 else 0)
  {
    StatusBytes(port.flash);
    FlashPassive();
    var _ := port.Send(5);
    v := port.Send(0);
    ClosedFinishes(port.flash.ctl);
    var _ := port.Raise();
  }

  /** Ask a device that may be writing: as long as it still is at the end, the answer says so. */
  method HearBusy(port: Port) returns (v: nat)
    requires port.logic == Flash() && Offline(port.flash) && Ticking(port.flash.ctl.status) && !port.flash.ctl.status.wel
    modifies port`flash
    ensures v in {4 * old(port.flash.ctl.status.rest), 4 * old(port.flash.ctl.status.rest) + 1}
    ensures port.flash.ctl.status.wip ==> v % 2 == 1
    ensures port.flash.mem == old(port.flash.mem)
  {
    ghost var c := port.flash;
    FlashPassive();
    var _, bs := port.Slow(5);
    PollStarts(c, bs);
    ghost var d := port.flash;
    v := HearPolled(port, c.ctl.status);
  }

  method HearPolled(port: Port, ghost was: Status) returns (v: nat)
    requires port.logic == Flash() && Passive(port.logic) && Polling(port.flash) && port.flash.count == 8
    requires !was.wel && Reports(was, port.flash.oreg % 256)
    modifies port`flash
    ensures v in {4 * was.rest, 4 * was.rest + 1} && (port.flash.ctl.status.wip ==> v % 2 == 1)
    ensures port.flash.mem == old(port.flash.mem)
  {
    ghost var d := port.flash;
    ghost var bs;
    v, bs := port.Slow(0);
    PolledByte(d, bs, was);
  }

  lemma PolledByte(d: Chip, bs: seq<Beat>, was: Status)
    requires Polling(d) && d.count == 8 && Carries(bs, 0) && !was.wel && Reports(was, d.oreg % 256)
    ensures var v, e := Heard(Flash(), d, bs), Beats(Flash(), d, bs);
            && v in {4 * was.rest, 4 * was.rest + 1} && (e.ctl.status.wip ==> v % 2 == 1) && e.mem == d.mem && e.ctl.mode.Spi?
  {
    PollContinues(d, bs);
    FlashPassive();
    HeardByte(Flash(), d, bs, 0);
    Odd(d.oreg % 256, was.rest);
    Parity(d.oreg);
  }

  lemma Odd(v: nat, rest: nat)
    requires v / 4 == rest && v / 2 % 2 == 0
    ensures v in {4 * rest, 4 * rest + 1}
  {
  }

  /** From power up: 0x1c, with the write enable latch 0x1e, and while a page program runs 0x1d. */
  method FromPowerUp(pmem: Page, addr: nat, count: nat, a: nat, data: seq<Byte>) returns (idle: nat, enabled: nat, busy: nat, port: Port)
    requires 0 < |data| && a % PageBytes + |data| <= PageBytes && a < MemBytes
    ensures idle == 0x1c && enabled == 0x1e && busy in {0x1c, 0x1d} && (port.flash.ctl.status.wip ==> busy == 0x1d)
  {
    port := new Port(Flash(), PowerUp(pmem, addr, count));
    IdleRaise(port.flash);
    var _ := port.Raise();
    idle := HearStatus(port);
    WriteEnable(port);
    enabled := HearStatus(port);
    StartProgram(port, a, data);
    busy := HearBusy(port);
  }

  // ---------------------------------------------------------------------------------------------
  // Writing it

  /** The lowest bits, apart from the others. */
  lemma AndBit(b: nat, z: nat, c: nat, m: nat)
    requires b <= 1 && c <= 1
    ensures And(b + 2 * z, c + 2 * m) == 2 * And(z, m) + if b == 1 && c == 1 then 1 else 0
  {
    AndStep(b + 2 * z, c + 2 * m);
    assert (b + 2 * z) / 2 == z && (c + 2 * m) / 2 == m;
  }

  /** Two bits more. */
  lemma AndTwo(b0: nat, b1: nat, z: nat, c0: nat, c1: nat, m: nat, r: nat)
    requires b0 <= 1 && b1 <= 1 && c0 <= 1 && c1 <= 1 && And(z, m) == r
    ensures And(b0 + 2 * b1 + 4 * z, c0 + 2 * c1 + 4 * m) ==
            (if b0 == 1 && c0 == 1 then 1 else 0) + (if b1 == 1 && c1 == 1 then 2 else 0) + 4 * r
  {
    AndBit(b1, z, c1, m);
    AndBit(b0, b1 + 2 * z, c0, c1 + 2 * m);
  }

  /** What the masks 0x27 and 0x18 leave, two bits at a time from the top. */
  lemma TopBits(b4: nat, b5: nat, top: nat)
    requires b4 <= 1 && b5 <= 1 && top == b4 + 2 * b5
    ensures And(top, 2) == 2 * b5 && And(top, 1) == b4
  {
    AndTwo(b4, b5, 0, 0, 1, 0, 0);
    AndTwo(b4, b5, 0, 1, 0, 0, 0);
  }

  lemma MidBits(b2: nat, b3: nat, top: nat, mid: nat, r: nat, s: nat)
    requires b2 <= 1 && b3 <= 1 && mid == b2 + 2 * b3 + 4 * top && And(top, 2) == r && And(top, 1) == s
    ensures And(mid, 9) == b2 + 4 * r && And(mid, 6) == 2 * b3 + 4 * s
  {
    AndTwo(b2, b3, top, 1, 0, 2, r);
    AndTwo(b2, b3, top, 0, 1, 1, s);
  }

  lemma LowBits(b0: nat, b1: nat, mid: nat, x: nat, r: nat, s: nat)
    requires b0 <= 1 && b1 <= 1 && x == b0 + 2 * b1 + 4 * mid && And(mid, 9) == r && And(mid, 6) == s
    ensures And(x, 0x27) == b0 + 2 * b1 + 4 * r && And(x, 0x18) == 4 * s
  {
    AndTwo(b0, b1, mid, 1, 1, 9, r);
    AndTwo(b0, b1, mid, 0, 0, 6, s);
  }

  lemma SixBits(b0: nat, b1: nat, b2: nat, b3: nat, b4: nat, b5: nat, x: nat)
    requires b0 <= 1 && b1 <= 1 && b2 <= 1 && b3 <= 1 && b4 <= 1 && b5 <= 1
    requires x == b0 + 2 * b1 + 4 * b2 + 8 * b3 + 16 * b4 + 32 * b5
    ensures And(x, 0x27) == b0 + 2 * b1 + 4 * b2 + 32 * b5 && And(x, 0x18) == 8 * b3 + 16 * b4
  {
    var top, mid := b4 + 2 * b5, b2 + 2 * b3 + 4 * b4 + 8 * b5;
    TopBits(b4, b5, top);
    MidBits(b2, b3, top, mid, 2 * b5, b4);
    LowBits(b0, b1, mid, x, b2 + 8 * b5, 2 * b3 + 4 * b4);
  }

  lemma MaskBits(x: nat)
    requires x < 64
    ensures And(x, 0x27) == x % 8 + 32 * (x / 32) && And(x, 0x18) == 8 * (x / 8 % 4)
  {
    var b0, x1 := x % 2, x / 2;
    var b1, x2 := x1 % 2, x1 / 2;
    var b2, x3 := x2 % 2, x2 / 2;
    var b3, x4 := x3 % 2, x3 / 2;
    var b4, b5 := x4 % 2, x4 / 2;
    SixBits(b0, b1, b2, b3, b4, b5, x);
    DivModUnique(x, 8, b3 + 2 * b4 + 4 * b5, b0 + 2 * b1 + 4 * b2);
    DivModUnique(x, 32, b5, b0 + 2 * b1 + 4 * b2 + 8 * b3 + 16 * b4);
    DivModUnique(b3 + 2 * b4 + 4 * b5, 4, b5, b3 + 2 * b4);
  }

  /** The rest of the register after a byte has been written to it: bits 2 to 4 and 7 are the byte's, 5 and 6 stay. */
  function Rewritten(rest: Rest, b: Byte): nat {
    b / 4 % 8 + 8 * (rest / 8 % 4) + 32 * (b / 128)
  }

  lemma RewrittenIs(rest: Rest, b: Byte)
    ensures And(rest, 0x18) + And(b / 4, 0x27) == Rewritten(rest, b) < 64
  {
    MaskBits(rest);
    MaskBits(b / 4);
    DivDiv(b, 4, 32);
  }

  /** The write status command, and one byte for it. */
  lemma WriteBytes(c: Chip, b: Byte)
    requires Quiet(c) && Offline(c) && c.ctl.status.wel
    ensures var d := Byted(Flash(), c, 1);
            var e := Byted(Flash(), d, b);
            && Serial(c) && Serial(d) && Quiet(d) && Quiet(e) && e.mem == c.mem && e.lastSck && e.ctl.mode.Spi?
            && e.ctl.state == WriteStatus && e.ctl.status.rest == Rewritten(c.ctl.status.rest, b)
  {
    CommandByte(c, 1);
    var d := Byted(Flash(), c, 1);
    DataByte(d, b);
    Written(d.ctl, 256 * d.ireg + b, b);
  }

  lemma Written(c: Control, r: nat, b: Byte)
    requires c.state.WriteStatus? && Low(r) == b
    ensures var d := Data(c, 16, r);
            && d.state == WriteStatus && d.mode == c.mode && d.status.rest == Rewritten(c.status.rest, b)
            && d.status.writeCount == c.status.writeCount && d.status.wip == c.status.wip && !d.status.asleep
  {
    RewrittenIs(c.status.rest, b);
  }

  lemma WriteSettles(c: Chip, n: nat)
    requires Quiet(c) && c.ctl.state.WriteStatus? && c.ctl.mode.Spi?
    ensures var d := Pause(Deselect(Age(c)), n);
            && Offline(d) && Ticking(d.ctl.status) && d.mem == c.mem && d.ctl.status.rest == c.ctl.status.rest && !d.ctl.status.wel
  {
    assert Age(c) == c;
    DownTicking(Begin(c.ctl.status, tW), n);
  }

  /** Write the status register, wait, and read it back. */
  method RoundTrip(port: Port, b: Byte) returns (before: nat, after: nat)
    requires port.logic == Flash() && Quiet(port.flash) && Offline(port.flash)
    modifies port`flash
    ensures Quiet(port.flash) && Offline(port.flash) && port.flash.mem == old(port.flash.mem)
    ensures after / 4 % 8 == b / 4 % 8 && after / 128 == b / 128
    ensures after / 32 % 4 == before / 32 % 4 && after % 4 == 0
  {
    before := HearStatus(port);
    WriteEnable(port);
    WriteBytes(port.flash, b);
    FlashPassive();
    var _ := port.Send(1);
    var _ := port.Send(b);
    ghost var c := port.flash;
    ghost var n := port.Raise();
    WriteSettles(c, n);
    FlWait(port);
    after := HearStatus(port);
    ReadBack(c.ctl.status.rest, b, before, after, old(port.flash.ctl.status.rest));
  }

  lemma ReadBack(rest: nat, b: Byte, before: nat, after: nat, was: Rest)
    requires rest == Rewritten(was, b) && after == 4 * rest && before in {4 * was, 4 * was + 2}
    ensures after / 4 % 8 == b / 4 % 8 && after / 128 == b / 128 && after / 32 % 4 == before / 32 % 4 && after % 4 == 0
  {
  }

  // ---------------------------------------------------------------------------------------------
  // The other registers, and sleep

  /** The rest of the register without bits 5 and 6. */
  function Cleared(rest: Rest): nat {
    rest - 8 * (rest / 8 % 4)
  }

  lemma ClearedIs(rest: Rest)
    ensures And(rest, 0x27) == Cleared(rest)
  {
    MaskBits(rest);
    DivDiv(rest, 8, 4);
  }

  lemma Clears(c: Control)
    requires c.state.ClearStatus?
    ensures Finish(c) == c.(state := Idle, status := c.status.(rest := And(c.status.rest, 0x27), asleep := false))
  {
  }

  lemma ClearBytes(c: Chip)
    requires Quiet(c) && Offline(c)
    ensures var d := Byted(Flash(), c, 0x30);
            var e := Deselect(d);
            && Serial(c) && Quiet(d) && Quiet(e) && Offline(e) && e.mem == c.mem
            && e.ctl.status == c.ctl.status.(rest := And(c.ctl.status.rest, 0x27))
  {
    CommandByte(c, 0x30);
    Clears(Byted(Flash(), c, 0x30).ctl);
  }

  /** Clearing the status register clears bits 5 and 6, and nothing else. */
  method ClearRegister(port: Port) returns (before: nat, after: nat)
    requires port.logic == Flash() && Quiet(port.flash) && Offline(port.flash)
    modifies port`flash
    ensures Quiet(port.flash) && Offline(port.flash) && port.flash.mem == old(port.flash.mem)
    ensures after == before - 32 * (before / 32 % 4)
  {
    before := HearStatus(port);
    ghost var status := port.flash.ctl.status;
    SendClear(port);
    after := HearStatus(port);
    ClearedIs(status.rest);
    ClearedReads(status.rest, if status.wel then 2 else 0);
  }

  lemma ClearedReads(rest: Rest, wel: nat)
    requires wel in {0, 2}
    ensures 4 * Cleared(rest) + wel == 4 * rest + wel - 32 * ((4 * rest + wel) / 32 % 4)
  {
    DivModUnique(4 * rest + wel, 32, rest / 8, 4 * (rest % 8) + wel);
  }

  method SendClear(port: Port)
    requires port.logic == Flash() && Quiet(port.flash) && Offline(port.flash)
    modifies port`flash
    ensures Quiet(port.flash) && Offline(port.flash) && port.flash.mem == old(port.flash.mem)
    ensures port.flash.ctl.status == old(port.flash.ctl.status).(rest := And(old(port.flash.ctl.status.rest), 0x27))
  {
    ClearBytes(port.flash);
    FlashPassive();
    var _ := port.Send(0x30);
    var _ := port.Raise();
  }

  lemma ConfigBytes(c: Chip)
    requires Quiet(c) && Offline(c) && c.ctl.creg < 256
    ensures var d := Byted(Flash(), c, 0x35);
            var e := Byted(Flash(), d, 0);
            && Serial(c) && Serial(d) && Quiet(d) && Quiet(e) && d.oreg % 256 == c.ctl.creg && e.oreg / 256 == d.oreg
            && e.mem == c.mem && e.ctl == c.ctl.(state := ReadConfig)
  {
    CommandByte(c, 0x35);
    var d := Byted(Flash(), c, 0x35);
    Loaded(c.oreg, c.ctl.creg);
    DataByte(d, 0);
    Loaded(d.oreg, c.ctl.creg);
  }

  /** The configuration register. */
  method HearConfig(port: Port) returns (v: nat)
    requires port.logic == Flash() && Quiet(port.flash) && Offline(port.flash) && port.flash.ctl.creg < 256
    modifies port`flash
    ensures Quiet(port.flash) && Offline(port.flash) && port.flash.mem == old(port.flash.mem)
    ensures v == port.flash.ctl.creg == old(port.flash.ctl.creg)
  {
    ConfigBytes(port.flash);
    FlashPassive();
    var _ := port.Send(0x35);
    v := port.Send(0);
    ClosedFinishes(port.flash.ctl);
    var _ := port.Raise();
  }

  lemma SignatureBytes(c: Chip)
    requires Quiet(c) && Offline(c)
    ensures var c0 := Byted(Flash(), c, 0xab);
            var c1 := Byted(Flash(), c0, 0);
            var c2 := Byted(Flash(), c1, 0);
            var c3 := Byted(Flash(), c2, 0);
            var c4 := Byted(Flash(), c3, 0);
            && Serial(c) && Serial(c0) && Quiet(c0) && Serial(c1) && Quiet(c1) && Serial(c2) && Quiet(c2) && Serial(c3) && Quiet(c3)
            && Quiet(c4) && c4.ctl.mode.Spi? && c3.oreg % 256 == 0x14 && c4.oreg / 256 == c3.oreg
  {
    CommandByte(c, 0xab);
    var c0 := Byted(Flash(), c, 0xab);
    var c1 := ReleaseByte(c0);
    var c2 := ReleaseByte(c1);
    var c3 := ReleaseByte(c2);
    var c4 := ReleaseByte(c3);
  }

  lemma ReleaseByte(c: Chip) returns (d: Chip)
    requires Serial(c) && Quiet(c) && c.ctl.state.Release? && 8 <= c.count < 64
    ensures d == Byted(Flash(), c, 0) && Serial(d) && Quiet(d) && d.ctl == c.ctl && d.count == c.count + 8
    ensures d.oreg / 256 == c.oreg && (d.count >= 32 ==> d.oreg % 256 == 0x14)
  {
    d := Byted(Flash(), c, 0);
    DataByte(c, 0);
    Loaded(c.oreg, if c.count + 8 >= 32 then 0x14 else 0);
  }

  /** The electronic signature, after the release command and three bytes that do not matter. */
  method HearSignature(port: Port) returns (v: nat)
    requires port.logic == Flash() && Quiet(port.flash) && Offline(port.flash)
    modifies port`flash
    ensures v == 0x14
  {
    SignatureBytes(port.flash);
    FlashPassive();
    var _ := port.Send(0xab);
    var _ := port.Send(0);
    var _ := port.Send(0);
    var _ := port.Send(0);
    v := port.Send(0);
  }

  /** A command of one byte, and chip select. */
  function Commanded(c: Chip, op: Byte): Chip {
    Deselect(Byted(Flash(), c, op))
  }

  function AllCommanded(c: Chip, ops: seq<Byte>): Chip {
    if ops == [] then c else Commanded(AllCommanded(c, ops[..|ops| - 1]), ops[|ops| - 1])
  }

  /** This device is the other one, asleep. */
  predicate Asleep(d: Chip, c: Chip) {
    && d.mem == c.mem && d.ctl == c.ctl.(state := Idle, status := c.ctl.status.(asleep := true))
    && d.lastSck && d.count == 0 && d.ireg == 0
  }

  lemma FallsAsleep(c: Chip)
    requires Quiet(c) && Offline(c)
    ensures Asleep(Commanded(c, 0xb9), c)
  {
    CommandByte(c, 0xb9);
  }

  lemma SleepsOn(d: Chip, c: Chip, op: Byte)
    requires Asleep(d, c) && c.ctl.mode.Spi? && op != 0xab
    ensures Asleep(Commanded(d, op), c)
  {
    CommandByte(d, op);
  }

  /** After 0xb9 the device sleeps: no command but 0xab does anything to it. */
  lemma {:induction false} Sleeps(c: Chip, ops: seq<Byte>)
    requires Quiet(c) && Offline(c) && forall op <- ops :: op != 0xab
    ensures Asleep(AllCommanded(Commanded(c, 0xb9), ops), c)
  {
    if ops == [] {
      FallsAsleep(c);
    } else {
      var n := |ops| - 1;
      assert ops[n] in ops && forall op <- ops[..n] :: op in ops;
      Sleeps(c, ops[..n]);
      SleepsOn(AllCommanded(Commanded(c, 0xb9), ops[..n]), c, ops[n]);
    }
  }

  /** And that one wakes it, with a countdown before it. */
  lemma Wakes(d: Chip, c: Chip)
    requires Asleep(d, c) && Quiet(c) && Offline(c)
    ensures Commanded(d, 0xab).ctl.status == c.ctl.status.(writeCount := tRES) && Commanded(d, 0xab).mem == c.mem
  {
    CommandByte(d, 0xab);
  }
}
