/** FLASHDRVR of sw/host/flashdrvr.cpp, down to the wires: every command below is clocked bit by bit into
    the flash device, and every byte read back comes out of it nibble by nibble. */
module FlashDriver {
  import opened Arith
  import opened FlashChip
  import opened FlashWire
  import opened FlashSession
  import opened FlashPort

  // ---------------------------------------------------------------------------------------------
  // Leaving and entering continued reads

  /** i bytes of ones into take_offline. */
  predicate Resetting(c: Chip, i: nat) {
    || (Leaving(c, 8 * i) && i <= 6)
    || (i == 0 && Quiet(c) && Offline(c))
    || (0 < i <= 6 && Quiet(c) && Serial(c) && c.ctl.state == Idle && c.count == 8 * i)
  }

  lemma ResetByte(c: Chip, i: nat, bs: seq<Beat>)
    requires Resetting(c, i) && i < 6 && Carries(bs, 255)
    ensures Resetting(Beats(Flash(), c, bs), i + 1) && Beats(Flash(), c, bs).mem == c.mem
  {
    if Leaving(c, 8 * i) {
      AllOnes(bs);
      LeavesAll(c, 8 * i, bs);
    } else {
      ResetMore(c, i);
      FlashPassive();
      StillByte(Flash(), c, bs, 255);
    }
  }

  lemma ResetMore(c: Chip, i: nat)
    requires Resetting(c, i) && i < 6 && !Leaving(c, 8 * i)
    ensures Serial(c) && Quiet(c) && Resetting(Byted(Flash(), c, 255), i + 1)
    ensures Byted(Flash(), c, 255).mem == c.mem && Byted(Flash(), c, 255).ctl.status.writeCount == 0
  {
    if i == 0 {
      CommandByte(c, 255);
    } else {
      DataByte(c, 255);
      assert Data(c.ctl, c.count + 8, 256 * c.ireg + 255) == c.ctl;
    }
  }

  lemma AllOnes(bs: seq<Beat>)
    requires Carries(bs, 255)
    ensures forall b <- bs :: b.dat % 2 == 1
  {
    forall k | 0 <= k < 8 ensures bs[k].dat % 2 == 1 {
      TopOnes(k + 1);
      assert Pow2(k + 1) == 2 * Pow2(k);
    }
  }

  lemma {:induction false} TopOnes(k: nat)
    requires 1 <= k <= 8
    ensures Top(255, k) == Pow2(k) - 1
    decreases 8 - k
  {
    if k < 8 {
      TopOnes(k + 1);
    } else {
      assert Pow2(8) == 256;
    }
  }

  lemma ResetDone(c: Chip)
    requires Resetting(c, 6)
    ensures var d := Deselect(c); Quiet(d) && Offline(d) && d.mem == c.mem
  {
    if !Leaving(c, 48) {
      ClosedFinishes(c.ctl);
    }
  }

  lemma IdleRaise(c: Chip)
    requires Quiet(c) && ((c.ctl.mode.Spi? && Closed(c.ctl)) || Online(c))
    ensures var d := Deselect(c);
            Quiet(d) && d.mem == c.mem && d.ctl == c.ctl && (c.ctl.mode.Spi? ==> Offline(d)) && (Online(c) ==> Online(d))
  {
    ClosedFinishes(c.ctl);
  }

  /** Both ways through the interface: commands, or the memory window. */
  method TakeOffline(port: Port)
    requires port.logic == Flash() && Quiet(port.flash) && (Offline(port.flash) || Online(port.flash))
    modifies port`flash
    ensures Quiet(port.flash) && Offline(port.flash) && port.flash.mem == old(port.flash.mem)
  {
    IdleRaise(port.flash);
    var _ := port.Raise();
    FlashPassive();
    for i := 0 to 6
      invariant Resetting(port.flash, i) && port.flash.mem == old(port.flash.mem) && port.flash.lastSck
    {
      ghost var c := port.flash;
      var _, bs := port.Slow(255);
      ResetByte(c, i, bs);
    }
    ResetDone(port.flash);
    var _ := port.Raise();
  }

  lemma EnterStarts(c: Chip)
    requires Quiet(c) && Offline(c)
    ensures var d := Byted(Flash(), c, 0xeb);
            Serial(c) && Entering(d, 0) && d.mem == c.mem && d.ctl.status.writeCount == 0
  {
    CommandByte(c, 0xeb);
  }

  lemma EnterDone(c: Chip, k: nat)
    requires Entering(c, k) && k >= 8
    ensures var d := Deselect(c); Quiet(d) && Online(d) && d.mem == c.mem
  {
  }

  method EnterByte(port: Port, k: nat, b: Byte)
    requires port.logic == Flash() && k + 2 <= 64 && Entering(port.flash, k) && k % 2 == 0 && (k == 6 ==> b / 16 == 10)
    modifies port`flash
    ensures Entering(port.flash, k + 2) && port.flash.mem == old(port.flash.mem)
  {
    ghost var c := port.flash;
    var b1, b2 := port.QuadOut(b);
    EntersOn(c, k, b1);
    EntersOn(Beaten(Flash(), c, b1), k + 1, b2);
  }

  method PlaceOnline(port: Port)
    requires port.logic == Flash() && Quiet(port.flash) && port.flash.ctl.mode.Spi? && Closed(port.flash.ctl)
    modifies port`flash
    ensures Quiet(port.flash) && Online(port.flash) && port.flash.mem == old(port.flash.mem)
  {
    IdleRaise(port.flash);
    var _ := port.Raise();
    EnterStarts(port.flash);
    FlashPassive();
    var _ := port.Send(0xeb);
    EnterByte(port, 0, 0);
    EnterByte(port, 2, 0);
    EnterByte(port, 4, 0);
    EnterByte(port, 6, 0xa0);
    FinishEntering(port);
  }

  method FinishEntering(port: Port)
    requires port.logic == Flash() && Entering(port.flash, 8)
    modifies port`flash
    ensures Quiet(port.flash) && Online(port.flash) && port.flash.mem == old(port.flash.mem)
  {
    ghost var c := port.flash;
    var _, b1, b2 := port.QuadIn();
    EntersOn(c, 8, b1);
    EntersOn(Beaten(Flash(), c, b1), 9, b2);
    FlashPassive();
    c := port.flash;
    var _, bs := port.Slow(0);
    EntersAll(c, 10, bs);
    EnterDone(port.flash, 18);
    var _ := port.Raise();
  }

  // ---------------------------------------------------------------------------------------------
  // Write enable, and waiting

  lemma EnableByte(c: Chip)
    requires Quiet(c) && Offline(c)
    ensures var d := Byted(Flash(), c, 6);
            && Serial(c) && d.mem == c.mem && d.ctl == c.ctl.(state := Idle, status := c.ctl.status.(wel := true))
            && d.count == 8
  {
    CommandByte(c, 6);
  }

  method WriteEnable(port: Port)
    requires port.logic == Flash() && Quiet(port.flash) && Offline(port.flash)
    modifies port`flash
    ensures Quiet(port.flash) && Offline(port.flash) && port.flash.mem == old(port.flash.mem)
    ensures port.flash.ctl.status == old(port.flash.ctl.status).(wel := true)
  {
    IdleRaise(port.flash);
    var _ := port.Raise();
    EnableByte(port.flash);
    FlashPassive();
    var _ := port.Send(6);
    ClosedFinishes(port.flash.ctl);
    var _ := port.Raise();
  }

  method WriteDisable(port: Port)
    requires port.logic == Flash() && Quiet(port.flash) && Offline(port.flash)
    modifies port`flash
    ensures Quiet(port.flash) && Offline(port.flash) && port.flash.mem == old(port.flash.mem)
    ensures !port.flash.ctl.status.wel
  {
    CommandByte(port.flash, 4);
    FlashPassive();
    var _ := port.Send(4);
    ClosedFinishes(port.flash.ctl);
    var _ := port.Raise();
  }

  lemma SettleRaise(c: Chip, n: nat)
    requires Offline(c) && Ticking(c.ctl.status)
    ensures var d := Pause(Deselect(Age(c)), n);
            && Offline(d) && Ticking(d.ctl.status) && d.mem == c.mem && (!c.ctl.status.wip ==> Quiet(d))
            && SameRest(c.ctl.status, d.ctl.status)
  {
    ClosedFinishes(Age(c).ctl);
    DownTicking(c.ctl.status, 1);
    assert Down(c.ctl.status, 0 + 1) == CountDown(Down(c.ctl.status, 0));
    DownTicking(CountDown(c.ctl.status), n);
  }

  lemma PollEnds(c: Chip, n: nat)
    requires Polling(c) && !c.ctl.status.wip
    ensures var d := Pause(Deselect(Age(c)), n); Quiet(d) && Offline(d) && d.mem == c.mem && d.ctl.status == c.ctl.status
  {
    ClosedFinishes(c.ctl);
    assert Age(c) == c;
    DownStill(c.ctl.status, n);
  }

  /** Ask for the status until it says that the write is over.  It always will, and when it has, the
      device is ready. */
  method FlWait(port: Port)
    requires port.logic == Flash() && Offline(port.flash) && Ticking(port.flash.ctl.status)
    modifies port`flash
    ensures Quiet(port.flash) && Offline(port.flash) && port.flash.mem == old(port.flash.mem)
    ensures SameRest(old(port.flash.ctl.status), port.flash.ctl.status)
  {
    ghost var c := port.flash;
    ghost var n := port.Raise();
    SettleRaise(c, n);
    FlashPassive();
    c := port.flash;
    var sr, bs := port.Slow(5);
    PollStarts(c, bs);
    sr := PollOnce(port);
    while sr % 2 == 1
      invariant Polling(port.flash) && port.flash.mem == old(port.flash.mem) && Bounded(port.flash, sr % 2)
      invariant SameRest(old(port.flash.ctl.status), port.flash.ctl.status)
      invariant sr % 2 == 0 ==> !port.flash.ctl.status.wip
      decreases port.flash.ctl.status.writeCount, port.flash.oreg % 2 + sr % 2
    {
      sr := PollOnce(port);
    }
    c := port.flash;
    n := port.Raise();
    PollEnds(c, n);
  }

  /** The clock count cannot wrap while a write is in progress. */
  predicate Bounded(c: Chip, again: nat) {
    c.count + 8 * c.ctl.status.writeCount + 8 * (c.oreg % 2) + 8 * again <= 64 + 8 * tSE
  }

  method PollOnce(port: Port) returns (sr: nat)
    requires port.logic == Flash() && Passive(port.logic) && Polling(port.flash) && Bounded(port.flash, 1)
    modifies port`flash
    ensures Polling(port.flash) && port.flash.mem == old(port.flash.mem) && Bounded(port.flash, sr % 2)
    ensures SameRest(old(port.flash.ctl.status), port.flash.ctl.status)
    ensures sr % 2 == old(port.flash.oreg) % 2
    ensures if old(port.flash).ctl.status.writeCount == 0 then
              port.flash.oreg % 2 == 0 && port.flash.ctl.status.writeCount == 0
            else port.flash.ctl.status.writeCount < old(port.flash).ctl.status.writeCount
  {
    ghost var c := port.flash;
    ghost var bs;
    sr, bs := port.Slow(0);
    PollAnswers(c, bs, port.flash);
  }

  lemma PollAnswers(c: Chip, bs: seq<Beat>, d: Chip)
    requires Polling(c) && Bounded(c, 1) && Carries(bs, 0) && d == Beats(Flash(), c, bs)
    ensures Polling(d) && d.mem == c.mem && Bounded(d, c.oreg % 2) && Heard(Flash(), c, bs) % 2 == c.oreg % 2
    ensures SameRest(c.ctl.status, d.ctl.status)
    ensures if c.ctl.status.writeCount == 0 then d.oreg % 2 == 0 && d.ctl.status.writeCount == 0
            else d.ctl.status.writeCount < c.ctl.status.writeCount
  {
    PollContinues(c, bs);
    StaysBounded(c, d);
    FlashPassive();
    PollHears(Flash(), c, bs, d);
  }

  lemma StaysBounded(c: Chip, d: Chip)
    requires Polling(c) && Bounded(c, 1) && d.count == c.count + 8
    requires if c.ctl.status.writeCount == 0 then d.oreg % 2 == 0 && d.ctl.status.writeCount == 0
             else d.ctl.status.writeCount < c.ctl.status.writeCount
    ensures Bounded(d, c.oreg % 2)
  {
  }

  lemma PollHears(l: Logic, c: Chip, bs: seq<Beat>, d: Chip)
    requires Passive(l) && Serial(c) && Carries(bs, 0) && d == Beats(l, c, bs) && d.oreg / 256 == c.oreg
    ensures Heard(l, c, bs) % 2 == c.oreg % 2
  {
    HeardByte(l, c, bs, 0);
    Parity(c.oreg);
  }
}
