/** The wires of the flash controller rtl/qflexpress.v: its configuration port clocks bytes out and in
    under program control, and a read of its memory window is a continued read of the flash. */
module FlashPort {
  import opened FlashChip
  import opened FlashWire
  import opened FlashSession
  import opened FlashXip

  lemma TickFalls(l: Logic, c: Chip, dat: Pins)
    requires c.lastSck
    ensures Tick(l, c, false, false, dat).chip == Edge(l, Age(c), dat)
  {
  }

  lemma TickHigh(l: Logic, c: Chip, d: Chip, dat: Pins, n: nat)
    requires d == Pause(Edge(l, Age(c), dat), n) || d == Pause(Edge(l, Age(c), dat), n).(lastSck := true)
    ensures var t := Tick(l, d, false, true, dat);
            t.chip == Pause(Edge(l, Age(c), dat), n + 1).(lastSck := true) && t.dat == Drive(t.chip, dat)
  {
  }

  lemma AppendBeat(l: Logic, c: Chip, bs: seq<Beat>, b: Beat)
    ensures Beats(l, c, bs + [b]) == Beaten(l, Beats(l, c, bs), b)
    ensures Heard(l, c, bs + [b]) == 2 * Heard(l, c, bs) + Beats(l, c, bs + [b]).oreg / 256 % 2
  {
    assert (bs + [b])[..|bs|] == bs;
  }

  lemma RaiseStill(c: Chip, n: nat)
    ensures c.ctl.status.writeCount == 0 && Deselect(c).ctl.status.writeCount == 0 ==>
              Pause(Deselect(Age(c)), n) == Deselect(c)
  {
    if c.ctl.status.writeCount == 0 && Deselect(c).ctl.status.writeCount == 0 {
      assert Age(c) == c;
      DownStill(Deselect(c).ctl.status, n);
    }
  }

  class Port {
    const logic: Logic
    var flash: Chip

    constructor (logic: Logic, flash: Chip)
      ensures this.logic == logic && this.flash == flash
    {
      this.logic, this.flash := logic, flash;
    }

    /** One clock: the wires taken in on the falling edge, then the clock high for as long as the
        controller likes.  The wires that come back are those of the last tick. */
    method Clock(dat: Pins) returns (r: Pins, ghost b: Beat)
      requires flash.lastSck
      modifies this`flash
      ensures b.dat == dat && flash == Beaten(logic, old(flash), b) && r == Drive(flash, dat)
    {
      ghost var c := flash;
      flash := Tick(logic, flash, false, false, dat).chip;
      TickFalls(logic, c, dat);
      var pad: nat :| true;
      TickHigh(logic, c, flash, dat, 0);
      var t := Tick(logic, flash, false, true, dat);
      flash, r := t.chip, t.dat;
      for i := 0 to pad
        invariant flash == Pause(Edge(logic, Age(c), dat), i + 1).(lastSck := true)
        invariant r == Drive(flash, dat)
      {
        TickHigh(logic, c, flash, dat, i + 1);
        t := Tick(logic, flash, false, true, dat);
        flash, r := t.chip, t.dat;
      }
      b := Beat(dat, pad);
    }

    /** Chip select high, for as long as it takes. */
    method Raise() returns (ghost n: nat)
      modifies this`flash
      ensures flash == Pause(Deselect(Age(old(flash))), n)
      ensures old(flash).ctl.status.writeCount == 0 && Deselect(old(flash)).ctl.status.writeCount == 0 ==>
                flash == Deselect(old(flash))
    {
      ghost var c := Age(flash);
      var pad: nat :| true;
      var dat: Pins :| true;
      flash := Tick(logic, flash, true, true, dat).chip;
      for i := 0 to pad
        invariant flash == Pause(Deselect(c), i)
      {
        DeselectTwice(c, i);
        flash := Tick(logic, flash, true, true, dat).chip;
      }
      n := pad;
      RaiseStill(old(flash), n);
    }

    /** A byte on wire 0 at low speed, and the byte heard on wire 1 meanwhile. */
    method Slow(b: Byte) returns (v: nat, ghost bs: seq<Beat>)
      requires Passive(logic) && flash.lastSck
      modifies this`flash
      ensures Carries(bs, b) && flash == Beats(logic, old(flash), bs) && flash.lastSck
      ensures Serial(old(flash)) && flash.ctl.mode.Spi? ==> v == Heard(logic, old(flash), bs)
    {
      ghost var c := flash;
      v, bs := 0, [];
      for k := 0 to 8
        invariant |bs| == k && Partway(logic, c, bs, b, flash, v)
      {
        v, bs := SlowBit(b, k, v, c, bs);
      }
    }

    /** A byte to a device with nothing in progress. */
    method Send(b: Byte) returns (v: nat)
      requires Passive(logic) && Serial(flash) && Quiet(flash) && Byted(logic, flash, b).ctl.status.writeCount == 0
      modifies this`flash
      ensures flash == Byted(logic, old(flash), b)
      ensures flash.ctl.mode.Spi? && flash.oreg / 256 % 2 == old(flash).oreg % 2 ==> v == old(flash).oreg % 256
    {
      ghost var c := flash;
      ghost var bs;
      v, bs := Slow(b);
      StillByte(logic, c, bs, b);
      if flash.ctl.mode.Spi? && flash.oreg / 256 % 2 == c.oreg % 2 {
        HeardByte(logic, c, bs, b);
      }
    }

    /** Two nibbles out at high speed. */
    method QuadOut(b: Byte) returns (ghost b1: Beat, ghost b2: Beat)
      requires flash.lastSck
      modifies this`flash
      ensures b1.dat == b / 16 && b2.dat == b % 16
      ensures flash == Beaten(logic, Beaten(logic, old(flash), b1), b2) && flash.lastSck
    {
      var _, x := Clock(b / 16);
      var _, y := Clock(b % 16);
      b1, b2 := x, y;
    }

    /** Two nibbles in, whatever is on the wires. */
    method QuadIn() returns (v: nat, ghost b1: Beat, ghost b2: Beat)
      requires flash.lastSck
      modifies this`flash
      ensures flash == Beaten(logic, Beaten(logic, old(flash), b1), b2) && flash.lastSck
      ensures Beaten(logic, old(flash), b1).ctl.mode.Quad? && flash.ctl.mode.Quad? ==>
                v == 16 * (Beaten(logic, old(flash), b1).oreg / 256 % 16) + flash.oreg / 256 % 16
    {
      var junk: Pins :| true;
      var hi, x := Clock(junk);
      var lo, y := Clock(junk);
      var h: nat := hi;
      b1, b2, v := x, y, 16 * h + lo;
    }

    method SlowBit(b: Byte, k: nat, v: nat, ghost c: Chip, ghost bs: seq<Beat>)
      returns (v': nat, ghost bs': seq<Beat>)
      requires Passive(logic) && |bs| == k < 8 && Partway(logic, c, bs, b, flash, v)
      modifies this`flash
      ensures |bs'| == k + 1 && Partway(logic, c, bs', b, flash, v')
    {
      var junk: nat :| true;
      Mixed(junk, Top(b, k + 1));
      var dat: Pins := junk % 8 * 2 + Top(b, k + 1) % 2;
      var r, beat := Clock(dat);
      SlowStep(logic, c, bs, b, beat, flash, v, r);
      bs', v' := bs + [beat], 2 * v + r / 2 % 2;
    }
  }

  /** The eight nibbles of address and mode that start a continued read. */
  method Seek(port: Port, a: nat)
    requires port.logic == Flash() && Quiet(port.flash) && Online(port.flash) && a < MemBytes
    modifies port`flash
    ensures Streaming(port.flash, a, 0) && port.flash.mem == old(port.flash.mem)
  {
    SeekStarts(port.flash, a);
    for k := 0 to 7
      invariant Seeking(port.flash, a, k) && port.flash.mem == old(port.flash.mem)
    {
      SeekNibble(port, a, k);
    }
    ghost var c := port.flash;
    var _, b := port.Clock(Nibble(a, 7));
    StreamStarts(c, a, b);
  }

  method SeekNibble(port: Port, a: nat, k: nat)
    requires port.logic == Flash() && k < 7 && Seeking(port.flash, a, k)
    modifies port`flash
    ensures Seeking(port.flash, a, k + 1) && port.flash.mem == old(port.flash.mem)
  {
    ghost var c := port.flash;
    var _, b := port.Clock(Nibble(a, k));
    SeekOn(c, a, k, b);
  }

  method StreamNext(port: Port, a: nat, j: nat) returns (v: Byte)
    requires port.logic == Flash() && Streaming(port.flash, a, j) && j < 4 && a + j < MemBytes
    modifies port`flash
    ensures Streaming(port.flash, a, j + 1) && port.flash.mem == old(port.flash.mem)
    ensures v == old(port.flash.mem)[a + j]
  {
    ghost var c := port.flash;
    var x, b1, b2 := port.QuadIn();
    StreamByte(c, a, j, b1, b2);
    v := x;
  }

  /** One bus read of four bytes through the memory window. */
  method ReadWord(port: Port, a: nat) returns (w: seq<Byte>)
    requires port.logic == Flash() && Quiet(port.flash) && Online(port.flash) && a + 4 <= MemBytes
    modifies port`flash
    ensures Quiet(port.flash) && Online(port.flash) && port.flash.mem == old(port.flash.mem)
    ensures w == old(port.flash.mem)[a..a + 4]
  {
    ghost var mem := port.flash.mem;
    Seek(port, a);
    w := [];
    for j := 0 to 4
      invariant Streaming(port.flash, a, j) && port.flash.mem == mem && w == mem[a..a + j]
    {
      var v := StreamNext(port, a, j);
      w := w + [v];
    }
    StreamEnds(port.flash, a, 4);
    var n := port.Raise();
  }

  lemma Mixed(junk: nat, bit: nat)
    ensures 0 <= junk % 8 * 2 + bit % 2 < 16 && (junk % 8 * 2 + bit % 2) % 2 == bit % 2
  {
  }

  /** Part of a byte has gone out from device c, which is now d, and the bits v have come back. */
  predicate Partway(l: Logic, c: Chip, bs: seq<Beat>, b: nat, d: Chip, v: nat) {
    && d == Beats(l, c, bs) && d.lastSck && Prefix(bs, b)
    && (Serial(c) && (|bs| < 8 || d.ctl.mode.Spi?) ==> v == Heard(l, c, bs))
  }

  /** The first bits of a byte. */
  predicate Prefix(bs: seq<Beat>, b: nat) {
    |bs| <= 8 && forall i :: 0 <= i < |bs| ==> bs[i].dat % 2 == Top(b, i + 1) % 2
  }

  lemma {:induction false} StaysSerial(l: Logic, c: Chip, bs: seq<Beat>)
    requires Passive(l) && Serial(c) && |bs| < 8
    ensures var d := Beats(l, c, bs);
            d.ctl.mode.Spi? && !Suspended(d.ctl.state) && d.lastSck && d.count == c.count + |bs|
  {
    if bs != [] {
      var n := |bs| - 1;
      StaysSerial(l, c, bs[..n]);
      InnerBit(l, Beats(l, c, bs[..n]), bs[n]);
    }
  }

  lemma SlowStep(l: Logic, c: Chip, bs: seq<Beat>, b: nat, beat: Beat, d: Chip, v: nat, r: Pins)
    requires Passive(l) && |bs| < 8 && Prefix(bs, b) && beat.dat % 2 == Top(b, |bs| + 1) % 2
    requires d == Beaten(l, Beats(l, c, bs), beat) && r == Drive(d, beat.dat)
    requires Serial(c) ==> v == Heard(l, c, bs)
    ensures Partway(l, c, bs + [beat], b, d, 2 * v + r / 2 % 2)
  {
    AppendBeat(l, c, bs, beat);
    if Serial(c) && (|bs| < 7 || d.ctl.mode.Spi?) {
      if |bs| < 7 {
        StaysSerial(l, c, bs + [beat]);
      }
      DriveBit(d, beat.dat);
    }
  }
}
