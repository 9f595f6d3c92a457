/** The event scheduler of the simulation: any number of clocks of sim/verilated/tbclock.h, advanced together
    from edge to edge by the tick of sim/verilated/testb.h.  Times are in picoseconds. */
module Clocks {
  import opened Arith

  datatype Clock = Clock(half: nat, now: nat, last: nat, ticks: nat)

  /** Half a period, rounded down to an even number. */
  function Half(interval: nat): nat {
    interval / 2 - interval / 2 % 2
  }

  /** It is even, and twice it is the interval but for the two low bits. */
  lemma HalfIs(interval: nat)
    ensures 2 * Half(interval) <= interval < 2 * Half(interval) + 4 && Half(interval) % 2 == 0
    ensures 2 * Half(interval) == interval - interval % 4
  {
  }

  /** A clock that starts low. */
  function Init(half: nat): Clock {
    Clock(half, half + 1, 0, 0)
  }

  /** time_to_edge: to the falling edge, or else to the rising edge, that comes next. */
  function ToEdge(c: Clock): int {
    if c.last + c.half > c.now then c.last + c.half - c.now else c.last + 2 * c.half - c.now
  }

  /** The branches of time_to_edge that should never be reached are not. */
  predicate EdgeAhead(c: Clock) {
    c.last <= c.now < c.last + 2 * c.half
  }

  function Advance(c: Clock, time: nat): Clock {
    var now := c.now + time;
    if now >= c.last + 2 * c.half then Clock(c.half, now, c.last + 2 * c.half, c.ticks + 1) else c.(now := now)
  }

  /** The value of the clock after it has been advanced. */
  function Level(c: Clock, time: nat): bool {
    var now := c.now + time;
    now >= c.last + 2 * c.half || now < c.last + c.half
  }

  predicate Rising(c: Clock) {
    c.now == c.last
  }

  predicate Falling(c: Clock) {
    c.now == c.last + c.half
  }

  // ---------------------------------------------------------------------------------------------
  // One clock

  /** A clock that has been running for this long, and has seen all its edges. */
  predicate InStep(c: Clock, time: nat) {
    && c.half >= 4 && c.half % 2 == 0 && c.half < 0x1_0000_0000
    && c.now == c.half + 1 + time && c.last == 2 * c.half * c.ticks && EdgeAhead(c)
  }

  /** An edge, by the time alone: the clock's own count is a multiple of its half period. */
  predicate EdgeAt(half: nat, time: nat)
    requires half > 0
  {
    (half + 1 + time) % half == 0
  }

  /** The number of rising edges is what the elapsed time says. */
  lemma TicksAre(c: Clock, time: nat)
    requires InStep(c, time)
    ensures c.ticks == (time + c.half + 1) / (2 * c.half)
  {
    DivModUnique(c.now, 2 * c.half, c.ticks, c.now - c.last);
  }

  lemma Phase(c: Clock, time: nat)
    requires InStep(c, time)
    ensures c.now % c.half == if c.now < c.last + c.half then c.now - c.last else c.now - c.last - c.half
    ensures ToEdge(c) == c.half - c.now % c.half && 1 <= ToEdge(c) <= c.half
  {
    var h, q := c.half, 2 * c.ticks;
    Commutes(h, c.ticks);
    if c.now < c.last + h {
      DivModUnique(c.now, h, q, c.now - c.last);
    } else {
      DivModUnique(c.now, h, q + 1, c.now - c.last - h);
    }
  }

  lemma Commutes(h: int, t: int)
    ensures 2 * h * t == h * (2 * t) && h * (2 * t + 1) == h * (2 * t) + h && 2 * h * (t + 1) == 2 * h * t + 2 * h
  {
  }

  /** The time to the next edge is exactly that: none comes sooner. */
  lemma NoneSooner(c: Clock, time: nat, t: nat)
    requires InStep(c, time) && 0 < t <= ToEdge(c)
    ensures EdgeAt(c.half, time + t) <==> t == ToEdge(c)
  {
    Phase(c, time);
    var h, r := c.half, c.now % c.half;
    Commutes(h, c.ticks);
    if t < h - r {
      DivModUnique(c.now + t, h, c.now / h, r + t);
    } else {
      NextMultiple(c.now, h);
    }
  }

  lemma NextMultiple(n: nat, h: nat)
    requires h > 0
    ensures (n + h - n % h) % h == 0
  {
    var q := n / h;
    assert h * (q + 1) == h * q + h;
    DivModUnique(n + h - n % h, h, q + 1, 0);
  }

  /** Advancing by no more than the time to its edge keeps a clock in step. */
  lemma AdvanceKeeps(c: Clock, time: nat, t: nat)
    requires InStep(c, time) && 0 < t <= ToEdge(c)
    ensures InStep(Advance(c, t), time + t) && t < 4 * c.half
    ensures t == ToEdge(c) <==> Rising(Advance(c, t)) || Falling(Advance(c, t))
    ensures Level(c, t) <==> Advance(c, t).now < Advance(c, t).last + c.half
  {
    Phase(c, time);
    Commutes(c.half, c.ticks);
  }

  /** The level is that of a clock that rises at every even multiple of its half period and falls at every odd one. */
  lemma LevelIs(c: Clock, time: nat, t: nat)
    requires InStep(c, time) && 0 < t <= ToEdge(c)
    ensures Level(c, t) <==> (time + t + c.half + 1) / c.half % 2 == 0
  {
    AdvanceKeeps(c, time, t);
    var d := Advance(c, t);
    var h := c.half;
    Commutes(h, d.ticks);
    if d.now < d.last + h {
      DivModUnique(d.now, h, 2 * d.ticks, d.now - d.last);
    } else {
      DivModUnique(d.now, h, 2 * d.ticks + 1, d.now - d.last - h);
    }
  }

  /** Edges come at odd times only. */
  lemma EdgesAreOdd(half: nat, time: nat)
    requires half > 0 && half % 2 == 0 && EdgeAt(half, time)
    ensures time % 2 == 1
  {
    var q, k := (half + 1 + time) / half, half / 2;
    Doubled(k, q);
    OddOne(time, k * q, k);
  }

  lemma OddOne(time: nat, z: int, k: int)
    requires 2 * k + 1 + time == 2 * z
    ensures time % 2 == 1
  {
  }

  // ---------------------------------------------------------------------------------------------
  // All clocks together

  datatype Bench = Bench(clocks: seq<Clock>, time: nat)

  function Least(clocks: seq<Clock>): int
    requires clocks != []
  {
    if |clocks| == 1 then ToEdge(clocks[0])
    else
      var m := Least(clocks[..|clocks| - 1]);
      if ToEdge(clocks[|clocks| - 1]) < m then ToEdge(clocks[|clocks| - 1]) else m
  }

  lemma {:induction false} LeastIs(clocks: seq<Clock>) returns (i: nat)
    requires clocks != []
    ensures i < |clocks| && Least(clocks) == ToEdge(clocks[i])
    ensures forall j :: 0 <= j < |clocks| ==> Least(clocks) <= ToEdge(clocks[j])
  {
    var n := |clocks| - 1;
    i := 0;
    if n > 0 {
      i := LeastIs(clocks[..n]);
      assert forall j :: 0 <= j < n ==> clocks[..n][j] == clocks[j];
      if ToEdge(clocks[n]) < Least(clocks[..n]) {
        i := n;
      }
    }
  }

  function AdvanceAll(clocks: seq<Clock>, t: nat): seq<Clock> {
    seq(|clocks|, i requires 0 <= i < |clocks| => Advance(clocks[i], t))
  }

  function Tick(b: Bench): Bench {
    if b.clocks == [] || Least(b.clocks) < 0 then b
    else Bench(AdvanceAll(b.clocks, Least(b.clocks)), b.time + Least(b.clocks))
  }

  /** Every clock is in step, and the time is that of an edge, or the start. */
  predicate AllInStep(b: Bench) {
    b.clocks != [] && (forall i :: 0 <= i < |b.clocks| ==> InStep(b.clocks[i], b.time)) && (b.time == 0 || b.time % 2 == 1)
  }

  /** One tick, from a bench in step: the bench stays in step, both asserts hold, the tick lands on an edge of
      some clock, and no clock has had an edge in between. */
  lemma TickKeeps(b: Bench) returns (i: nat)
    requires AllInStep(b)
    ensures Least(b.clocks) > 1 && AllInStep(Tick(b)) && |Tick(b).clocks| == |b.clocks|
    ensures forall k :: 0 <= k < |b.clocks| ==> Least(b.clocks) < 4 * b.clocks[k].half
    ensures i < |b.clocks| && (Rising(Tick(b).clocks[i]) || Falling(Tick(b).clocks[i]))
    ensures forall k, t :: 0 <= k < |b.clocks| && b.time < t < Tick(b).time ==> !EdgeAt(b.clocks[k].half, t)
  {
    i := LeastIs(b.clocks);
    var m, c := Least(b.clocks), b.clocks[i];
    Phase(c, b.time);
    NoneSooner(c, b.time, m);
    EdgesAreOdd(c.half, b.time + m);
    FirstGap(c, b.time, m);
    forall k | 0 <= k < |b.clocks| ensures InStep(Advance(b.clocks[k], m), b.time + m) && m < 4 * b.clocks[k].half {
      AdvanceKeeps(b.clocks[k], b.time, m);
    }
    AdvanceKeeps(c, b.time, m);
    forall k, t | 0 <= k < |b.clocks| && b.time < t < b.time + m ensures !EdgeAt(b.clocks[k].half, t) {
      NoneSooner(b.clocks[k], b.time, t - b.time);
    }
  }

  lemma FirstGap(c: Clock, time: nat, m: int)
    requires InStep(c, time) && m == ToEdge(c) && (time + m) % 2 == 1 && (time == 0 || time % 2 == 1)
    ensures m > 1
  {
    if time == 0 {
      Phase(c, time);
      assert c.now == c.half + 1;
      DivModUnique(c.now, c.half, 1, 1);
    }
  }

  function Start(halves: seq<nat>): Bench {
    Bench(seq(|halves|, i requires 0 <= i < |halves| => Init(halves[i])), 0)
  }

  /** Half periods the scheduler works for. */
  predicate Usable(halves: seq<nat>) {
    halves != [] && forall h <- halves :: h >= 4 && h % 2 == 0 && h < 0x1_0000_0000
  }

  function Run(b: Bench, n: nat): Bench {
    if n == 0 then b else Tick(Run(b, n - 1))
  }

  lemma StartsInStep(halves: seq<nat>)
    requires Usable(halves)
    ensures AllInStep(Start(halves))
  {
    forall i | 0 <= i < |halves| ensures InStep(Start(halves).clocks[i], 0) {
      assert halves[i] in halves;
    }
  }

  lemma {:induction false} RunKeeps(halves: seq<nat>, n: nat)
    requires Usable(halves)
    ensures AllInStep(Run(Start(halves), n)) && |Run(Start(halves), n).clocks| == |halves|
    ensures forall i :: 0 <= i < |halves| ==> Run(Start(halves), n).clocks[i].half == halves[i]
  {
    if n > 0 {
      RunKeeps(halves, n - 1);
      var i := TickKeeps(Run(Start(halves), n - 1));
    } else {
      StartsInStep(halves);
    }
  }

  /** The half periods of clocks with these intervals. */
  function Halved(intervals: seq<nat>): (h: seq<nat>)
    ensures |h| == |intervals|
  {
    seq(|intervals|, i requires 0 <= i < |intervals| => Half(intervals[i]))
  }

  /** After any number of ticks of any set of clocks, each clock has had exactly as many rising edges as the
      time that has passed holds of its interval, cut to a multiple of four. */
  lemma CountsAreExact(intervals: seq<nat>, n: nat, i: nat)
    requires Usable(Halved(intervals)) && i < |intervals|
    ensures var b := Run(Start(Halved(intervals)), n);
            var interval := intervals[i] - intervals[i] % 4;
            && |b.clocks| == |intervals| && interval > 0
            && b.clocks[i].ticks == (b.time + interval / 2 + 1) / interval
  {
    var halves := Halved(intervals);
    HalfIs(intervals[i]);
    CountsInHalves(halves, n, i);
    assert halves[i] == Half(intervals[i]);
  }

  lemma CountsInHalves(halves: seq<nat>, n: nat, i: nat)
    requires Usable(halves) && i < |halves|
    ensures var b := Run(Start(halves), n);
            && |b.clocks| == |halves| && halves[i] > 0
            && b.clocks[i].ticks == (b.time + halves[i] + 1) / (2 * halves[i])
  {
    RunKeeps(halves, n);
    var b := Run(Start(halves), n);
    TicksAre(b.clocks[i], b.time);
  }

  /** The minimum as the code keeps it, in 32 bits: the first time is cut, and a later one is smaller than what
      is there already. */
  function Kept(clocks: seq<Clock>): int
    requires clocks != []
  {
    if |clocks| == 1 then ToEdge(clocks[0]) % 0x1_0000_0000
    else
      var m := Kept(clocks[..|clocks| - 1]);
      var t := ToEdge(clocks[|clocks| - 1]);
      if t < m then t % 0x1_0000_0000 else m
  }

  /** For usable clocks in step nothing is lost. */
  lemma {:induction false} KeptIsLeast(clocks: seq<Clock>, time: nat)
    requires clocks != [] && forall i :: 0 <= i < |clocks| ==> InStep(clocks[i], time)
    ensures Kept(clocks) == Least(clocks)
  {
    var n := |clocks| - 1;
    Phase(clocks[n], time);
    SmallMod(ToEdge(clocks[n]), 0x1_0000_0000);
    if n > 0 {
      KeptIsLeast(clocks[..n], time);
    }
  }

  /** Half periods as set_interval_ps leaves them. */
  predicate Halves(halves: seq<nat>) {
    halves != [] && forall i :: 0 <= i < |halves| ==> halves[i] >= 2 && halves[i] % 2 == 0
  }

  predicate NoneIsTwo(halves: seq<nat>) {
    forall i :: 0 <= i < |halves| ==> halves[i] != 2
  }

  lemma {:induction false} KeptAtStart(halves: seq<nat>)
    requires Halves(halves)
    ensures Kept(Start(halves).clocks) >= 1
    ensures Kept(Start(halves).clocks) > 1 <==> halves[0] % 0x1_0000_0000 != 2 && NoneIsTwo(halves)
  {
    var clocks, n := Start(halves).clocks, |halves| - 1;
    assert ToEdge(clocks[n]) + 1 == halves[n];
    if n == 0 {
      CutOdd(halves[0]);
    } else {
      KeptAtStart(halves[..n]);
      assert clocks[..n] == Start(halves[..n]).clocks;
      assert NoneIsTwo(halves) <==> NoneIsTwo(halves[..n]) && halves[n] != 2;
      KeptBelow(clocks[..n]);
      if ToEdge(clocks[n]) < Kept(clocks[..n]) {
        SmallMod(ToEdge(clocks[n]), 0x1_0000_0000);
      }
    }
  }

  lemma {:induction false} KeptBelow(clocks: seq<Clock>)
    requires clocks != []
    ensures Kept(clocks) < 0x1_0000_0000
  {
    if |clocks| > 1 {
      KeptBelow(clocks[..|clocks| - 1]);
    }
  }

  lemma CutOdd(h: nat)
    requires h >= 2 && h % 2 == 0
    ensures (h - 1) % 0x1_0000_0000 >= 1
    ensures (h - 1) % 0x1_0000_0000 > 1 <==> h % 0x1_0000_0000 != 2
    ensures h == 2 ==> h % 0x1_0000_0000 == 2
  {
    var k := h / 2;
    var q, r := k / 0x8000_0000, k % 0x8000_0000;
    DivModUnique(h, 0x1_0000_0000, q, 2 * r);
    if r == 0 {
      DivModUnique(h - 1, 0x1_0000_0000, q - 1, 0xffff_ffff);
    } else {
      DivModUnique(h - 1, 0x1_0000_0000, q, 2 * r - 1);
    }
  }

  /** The very first tick meets its assert, on the minimum as it is kept, if and only if no half period is two
      picoseconds and the first clock's is not two modulo 2^32. */
  lemma FirstTickAsserts(halves: seq<nat>)
    requires Halves(halves)
    ensures Kept(Start(halves).clocks) > 1 <==> halves[0] % 0x1_0000_0000 != 2 && NoneIsTwo(halves)
  {
    KeptAtStart(halves);
  }

  /** So a first clock with a half period of 2^32 + 2 ps fails it, although the next edge is 9999 ps away. */
  lemma WideClockFails()
    ensures var halves := [0x1_0000_0002, 10000]; Kept(Start(halves).clocks) == 1 && Least(Start(halves).clocks) == 9999
  {
    var halves := [0x1_0000_0002, 10000];
    var clocks := Start(halves).clocks;
    assert clocks == [Init(halves[0]), Init(halves[1])];
    assert clocks[..1] == [Init(halves[0])];
  }
}
