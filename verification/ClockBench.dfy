/** The clocks and the test bench as the objects they are. */
module ClockBench {
  import opened Clocks

  class TbClock {
    var half: nat
    var now: nat
    var last: nat
    var ticks: nat

    function State(): Clock
      reads this
    {
      Clock(half, now, last, ticks)
    }

    /** Half an interval, rounded down to an even number, which must not be zero; then low. */
    constructor (interval: nat)
      requires Half(interval) > 0
      ensures State() == Init(Half(interval))
    {
      var h := interval / 2 - interval / 2 % 2;
      half, now := h, h + 1;
      last, ticks := 0, 0;
    }

    method TimeToEdge() returns (t: nat)
      requires EdgeAhead(State())
      ensures t == ToEdge(State())
    {
      if last + half > now {
        return last + half - now;
      } else {
        return last + 2 * half - now;
      }
    }

    method Step(time: nat) returns (level: bool)
      requires time < 4 * half
      modifies this
      ensures State() == Advance(old(State()), time) && level == Level(old(State()), time)
    {
      now := now + time;
      if now >= last + 2 * half {
        last := last + 2 * half;
        ticks := ticks + 1;
        return true;
      } else if now >= last + half {
        return false;
      } else {
        return true;
      }
    }
  }

  class TestB {
    const clk: TbClock
    const clk125: TbClock
    const rxClk: TbClock
    var time: nat

    ghost predicate Valid()
      reads this, clk, clk125, rxClk
    {
      clk != clk125 && clk != rxClk && clk125 != rxClk && AllInStep(View())
    }

    ghost function View(): Bench
      reads this, clk, clk125, rxClk
    {
      Bench([clk.State(), clk125.State(), rxClk.State()], time)
    }

    /** The bench at the start, for intervals that give usable half periods. */
    constructor (i0: nat, i1: nat, i2: nat)
      requires Usable([Half(i0), Half(i1), Half(i2)])
      ensures Valid() && View() == Start([Half(i0), Half(i1), Half(i2)])
    {
      ghost var halves := [Half(i0), Half(i1), Half(i2)];
      assert halves[0] in halves && halves[1] in halves && halves[2] in halves;
      clk := new TbClock(i0);
      clk125 := new TbClock(i1);
      rxClk := new TbClock(i2);
      time := 0;
      new;
      StartsInStep(halves);
      assert View().clocks == Start(halves).clocks;
    }

    /** The least time to an edge, kept in 32 bits. */
    method MinTime() returns (mintime: nat)
      requires EdgeAhead(clk.State()) && EdgeAhead(clk125.State()) && EdgeAhead(rxClk.State())
      ensures mintime == Kept(View().clocks)
    {
      KeptOfThree(clk.State(), clk125.State(), rxClk.State());
      var t := clk.TimeToEdge();
      mintime := t % 0x1_0000_0000;
      t := clk125.TimeToEdge();
      if t < mintime {
        mintime := t % 0x1_0000_0000;
      }
      t := rxClk.TimeToEdge();
      if t < mintime {
        mintime := t % 0x1_0000_0000;
      }
    }

    /** Every clock advanced by the same time. */
    method StepAll(t: nat)
      requires clk != clk125 && clk != rxClk && clk125 != rxClk
      requires t < 4 * clk.half && t < 4 * clk125.half && t < 4 * rxClk.half
      modifies this`time, clk, clk125, rxClk
      ensures View() == Bench([Advance(old(clk.State()), t), Advance(old(clk125.State()), t),
                               Advance(old(rxClk.State()), t)], old(time) + t)
    {
      var _ := clk.Step(t);
      var _ := clk125.Step(t);
      var _ := rxClk.Step(t);
      time := time + t;
    }

    /** Every clock advanced to the next edge of any. */
    method Tick() returns (mintime: nat)
      requires Valid()
      modifies this, clk, clk125, rxClk
      ensures Valid() && View() == Clocks.Tick(old(View())) && mintime > 1
    {
      ghost var b := View();
      ghost var i := TickKeeps(b);
      assert b.clocks[0] == clk.State() && b.clocks[1] == clk125.State() && b.clocks[2] == rxClk.State();
      KeptIsLeast(b.clocks, b.time);
      mintime := MinTime();
      StepAll(mintime);
      ThreeAdvance(b, mintime);
    }
  }

  lemma ThreeAdvance(b: Bench, t: nat)
    requires |b.clocks| == 3 && t == Least(b.clocks)
    ensures Clocks.Tick(b) ==
            Bench([Advance(b.clocks[0], t), Advance(b.clocks[1], t), Advance(b.clocks[2], t)], b.time + t)
  {
  }

  lemma KeptOfThree(x: Clock, y: Clock, z: Clock)
    ensures Kept([x, y, z]) ==
            var a := ToEdge(x) % 0x1_0000_0000;
            var b := if ToEdge(y) < a then ToEdge(y) % 0x1_0000_0000 else a;
            if ToEdge(z) < b then ToEdge(z) % 0x1_0000_0000 else b
  {
    var c, d := [x, y, z], [x, y];
    assert c[..|c| - 1] == d && d[..|d| - 1] == [x];
    assert Kept([x]) == ToEdge(x) % 0x1_0000_0000;
  }
}
