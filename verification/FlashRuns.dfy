/** What holds in every run of the flash device, whatever is done to its wires. */
module FlashRuns {
  import opened Bitwise
  import opened FlashChip
  import Runs

  datatype Input = Input(csn: bool, sck: bool, dat: Pins)

  function Next(c: Chip, i: Input): Chip {
    Tick(Flash(), c, i.csn, i.sck, i.dat).chip
  }

  /** Write in progress implies a countdown that will clear it. */
  predicate Timed(s: Status) {
    s.wip ==> s.writeCount > 0
  }

  // ---------------------------------------------------------------------------------------------
  // One call

  /** How much of a write is surely still to come. */
  function Left(s: Status): nat {
    if !s.wip then 0 else if s.writeCount <= tRES then s.writeCount else tRES
  }

  /** A command leaves the countdown alone, unless it wakes the device. */
  lemma CommandKeeps(c: Control, op: nat)
    ensures Command(c, op).status.writeCount == if op == 0xab && c.status.asleep then tRES else c.status.writeCount
    ensures Command(c, op).status.wip == c.status.wip
    ensures Timed(c.status) ==> Timed(Command(c, op).status)
    ensures Left(Command(c, op).status) >= Left(c.status)
    ensures Writing(Command(c, op).state) ==> Command(c, op).state == c.state || Writable(c.status)
  {
  }

  lemma DataKeeps(c: Control, count: nat, r: nat)
    ensures Data(c, count, r).status.wip == c.status.wip
    ensures Data(c, count, r).status.writeCount == c.status.writeCount
    ensures Data(c, count, r).state in {c.state, Failed}
  {
  }

  /** This input is the last bit of a command byte, and the device may write. */
  predicate Accepts(c: Chip, i: Input) {
    && !i.csn && c.lastSck && !i.sck && !Suspended(c.ctl.state)
    && Counted(c.ctl.mode, c.count) == 8 && Writable(CountDown(c.ctl.status))
  }

  /** No write command is open while a write is in progress. */
  predicate Exclusive(c: Control) {
    Writing(c.state) || c.state.WriteStatus? ==> !c.status.wip
  }

  lemma CommandExcludes(c: Control, op: nat)
    requires Exclusive(c)
    ensures Exclusive(Command(c, op))
  {
  }

  lemma RespondKeeps(c: Control, count: nat, r: nat)
    ensures Timed(c.status) ==> Timed(Respond(c, count, r).status)
    ensures Left(Respond(c, count, r).status) >= Left(c.status)
    ensures Exclusive(c) ==> Exclusive(Respond(c, count, r))
  {
    if Suspended(c.state) {
    } else if count == 8 {
      CommandKeeps(c, Low(r));
      if Exclusive(c) {
        CommandExcludes(c, Low(r));
      }
    } else {
      DataKeeps(c, count, r);
    }
  }

  /** This input ends a release command, or is the last bit of one that wakes the device. */
  predicate Releases(c: Chip, i: Input) {
    if i.csn then c.ctl.state.Release?
    else
      && c.lastSck && !i.sck && !c.ctl.state.Failed? && !Suspended(c.ctl.state) && CountDown(c.ctl.status).asleep
      && Counted(c.ctl.mode, c.count) == 8 && Low(ShiftIn(c.ctl.mode, c.ireg, i.dat)) == 0xab
  }

  lemma RespondCounts(c: Control, count: nat, r: nat)
    ensures Respond(c, count, r).status.writeCount ==
            if !c.state.Failed? && !Suspended(c.state) && count == 8 && Low(r) == 0xab && c.status.asleep then tRES
            else c.status.writeCount
  {
    if c.state.Failed? || Suspended(c.state) {
    } else if count == 8 {
      CommandKeeps(c, Low(r));
    } else {
      DataKeeps(c, count, r);
    }
  }

  /** Nothing but a release changes how long a write in progress still takes, and then it takes as long as a
      release does. */
  lemma OnlyReleaseShortens(c: Chip, i: Input)
    requires Sound(c) && c.ctl.status.wip
    ensures Next(c, i).ctl.status.writeCount == if Releases(c, i) then tRES else c.ctl.status.writeCount - 1
  {
    NextSteers(c, i);
    var ctl := c.ctl.(status := CountDown(c.ctl.status));
    if i.csn {
      FinishCounts(ctl);
    } else if c.lastSck && !i.sck {
      RespondCounts(ctl, Counted(ctl.mode, c.count), ShiftIn(ctl.mode, c.ireg, i.dat));
    }
  }

  lemma FinishCounts(c: Control)
    requires !Writing(c.state) && !c.state.WriteStatus?
    ensures Finish(c).status.writeCount == if c.state.Release? then tRES else c.status.writeCount
  {
  }

  lemma RespondGuards(c: Control, count: nat, r: nat)
    requires Writing(Respond(c, count, r).state)
    ensures Respond(c, count, r).state == c.state || (!Suspended(c.state) && count == 8 && Writable(c.status))
  {
    if Suspended(c.state) {
    } else if count == 8 {
      CommandKeeps(c, Low(r));
    } else {
      DataKeeps(c, count, r);
    }
  }

  /** How long the device is surely busy with what this state ends in: a release cuts a bulk erase short. */
  function Lasts(s: State): nat {
    if s.SectorErase? then 1_500_000 else if s.BulkErase? then 3_000_000_000 else 1200
  }

  lemma FinishKeeps(c: Control)
    ensures !Writing(Finish(c).state) && Exclusive(Finish(c))
    ensures Timed(c.status) ==> Timed(Finish(c).status)
    ensures Writing(c.state) ==> Left(Finish(c).status) >= Lasts(c.state) && !Finish(c).status.wel
    ensures Exclusive(c) ==> Left(Finish(c).status) >= Left(c.status)
  {
    match c.state
    case _ =>
  }

  /** The control part of one call. */
  function Steer(c: Chip, i: Input): Control {
    var ctl := c.ctl.(status := CountDown(c.ctl.status));
    if i.csn then Finish(ctl)
    else if !c.lastSck || i.sck then ctl
    else Respond(ctl, Counted(ctl.mode, c.count), ShiftIn(ctl.mode, c.ireg, i.dat))
  }

  lemma NextSteers(c: Chip, i: Input)
    ensures Next(c, i).ctl == Steer(c, i)
    ensures Next(c, i).mem == if i.csn then Effect(c.mem, c.ctl) else c.mem
  {
  }

  /** One call keeps the countdown of a write in progress, and its exclusion of other writes. */
  lemma NextTimed(c: Chip, i: Input)
    requires Sound(c)
    ensures Sound(Next(c, i))
  {
    NextSteers(c, i);
    var ctl := c.ctl.(status := CountDown(c.ctl.status));
    FinishKeeps(ctl);
    RespondKeeps(ctl, Counted(ctl.mode, c.count), ShiftIn(ctl.mode, c.ireg, i.dat));
  }

  /** One call takes at most one tick off a write in progress. */
  lemma NextBusy(c: Chip, i: Input)
    requires Sound(c)
    ensures Left(Next(c, i).ctl.status) >= Left(c.ctl.status) - 1
  {
    NextSteers(c, i);
    var ctl := c.ctl.(status := CountDown(c.ctl.status));
    FinishKeeps(ctl);
    RespondKeeps(ctl, Counted(ctl.mode, c.count), ShiftIn(ctl.mode, c.ireg, i.dat));
  }

  /** The memory changes only when chip select ends a program or an erase, and then the device is busy. */
  lemma NextMemory(c: Chip, i: Input)
    ensures Next(c, i).mem != c.mem ==> i.csn && Writing(c.ctl.state) && Next(c, i).mem == Effect(c.mem, c.ctl)
    ensures i.csn && Writing(c.ctl.state) ==> Left(Next(c, i).ctl.status) >= Lasts(c.ctl.state) && !Next(c, i).ctl.status.wel
  {
    NextSteers(c, i);
    FinishKeeps(c.ctl.(status := CountDown(c.ctl.status)));
  }

  /** A writing state is entered only by an accepted command. */
  lemma NextWriting(c: Chip, i: Input)
    requires Writing(Next(c, i).ctl.state)
    ensures !i.csn && (Next(c, i).ctl.state == c.ctl.state || Accepts(c, i))
  {
    NextSteers(c, i);
    var ctl := c.ctl.(status := CountDown(c.ctl.status));
    if i.csn {
      FinishKeeps(ctl);
    } else if c.lastSck && !i.sck {
      RespondGuards(ctl, Counted(ctl.mode, c.count), ShiftIn(ctl.mode, c.ireg, i.dat));
    }
  }

  /** Programming touches one page, and there a bit stays set exactly where the page buffer has it set too. */
  lemma ProgramClears(mem: Memory, addr: nat, pmem: Page, i: nat, k: nat)
    requires i < MemBytes
    ensures var r := Programmed(mem, addr, pmem);
            if i / PageBytes == addr / PageBytes then
              BitAt(r[i], k) == 1 <==> BitAt(mem[i], k) == 1 && BitAt(pmem[i % PageBytes], k) == 1
            else r[i] == mem[i]
  {
    AndBits(mem[i], pmem[i % PageBytes], k);
  }

  // ---------------------------------------------------------------------------------------------
  // Whole runs

  /** A write in progress is timed, and no write command is open meanwhile. */
  predicate Sound(c: Chip) {
    Timed(c.ctl.status) && Exclusive(c.ctl)
  }

  function After(c: Chip, run: seq<Input>, n: nat): Chip
    requires n <= |run|
  {
    Runs.After(Next, c, run, n)
  }

  lemma RunSound(c: Chip, run: seq<Input>, n: nat)
    requires n <= |run| && Sound(c)
    ensures Sound(After(c, run, n))
  {
    forall t: Chip, i: Input | Sound(t) ensures Sound(Next(t, i)) {
      NextTimed(t, i);
    }
    Runs.Invariant(Next, Sound, c, run, n);
  }

  /** An assert that has failed ends the program for good: nothing changes any more. */
  lemma FailedIsFinal(c: Chip, run: seq<Input>, n: nat)
    requires n <= |run| && c.ctl.state.Failed?
    ensures After(c, run, n).ctl.state.Failed? && After(c, run, n).mem == c.mem
  {
    var inv := (t: Chip) => t.ctl.state.Failed? && t.mem == c.mem;
    forall t: Chip, i: Input | inv(t) ensures inv(Next(t, i)) {
      NextSteers(t, i);
    }
    Runs.Invariant(Next, inv, c, run, n);
  }

  /** Over any run from a device that is not writing, such as one at power up: if the n-th call changes
      the memory, it is the rise of chip select that ends a program or an erase command, accepted in
      this same transaction with write enable set and neither a write in progress nor deep power down;
      and the memory becomes what that command says. */
  lemma MemoryChangesOnlyWhenAccepted(c: Chip, run: seq<Input>, n: nat) returns (i: nat)
    requires n < |run| && !Writing(c.ctl.state)
    requires After(c, run, n + 1).mem != After(c, run, n).mem
    ensures run[n].csn && Writing(After(c, run, n).ctl.state)
    ensures After(c, run, n + 1).mem == Effect(After(c, run, n).mem, After(c, run, n).ctl)
    ensures i < n && Accepts(After(c, run, i), run[i]) && forall j :: i <= j < n ==> !run[j].csn
    ensures After(c, run, i + 1).ctl.state == After(c, run, n).ctl.state
  {
    NextMemory(After(c, run, n), run[n]);
    i := WritingWasAccepted(c, run, n);
  }

  lemma WritingWasAccepted(c: Chip, run: seq<Input>, n: nat) returns (i: nat)
    requires n <= |run| && !Writing(c.ctl.state) && Writing(After(c, run, n).ctl.state)
    ensures i < n && Accepts(After(c, run, i), run[i]) && forall j :: i <= j < n ==> !run[j].csn
    ensures After(c, run, i + 1).ctl.state == After(c, run, n).ctl.state
  {
    var tagged, tag := (t: Chip) => Writing(t.ctl.state), (t: Chip) => t.ctl.state;
    var keeps := (x: Input) => !x.csn;
    forall t: Chip, x: Input | tagged(Next(t, x))
      ensures keeps(x) && ((tagged(t) && tag(Next(t, x)) == tag(t)) || Accepts(t, x))
    {
      NextWriting(t, x);
    }
    i := Runs.Origin(Next, tagged, tag, Accepts, keeps, c, run, n);
  }

  /** Two changes of the memory are further apart than the first of them takes: the second command cannot even be
      accepted before the first has been carried out. */
  lemma ChangesAreApart(c: Chip, run: seq<Input>, m: nat, n: nat)
    requires m < n < |run| && Sound(c) && !Writing(c.ctl.state)
    requires Changes(After(c, run, m), run[m]) && Changes(After(c, run, n), run[n])
    ensures n - m > Lasts(After(c, run, m).ctl.state)
  {
    var level := (t: Chip) => Left(t.ctl.status);
    var tagged, tag := (t: Chip) => Writing(t.ctl.state), (t: Chip) => t.ctl.state;
    var keeps := (x: Input) => !x.csn;
    forall t: Chip, x: Input | Sound(t) ensures Sound(Next(t, x)) && level(Next(t, x)) >= level(t) - 1 {
      NextTimed(t, x);
      NextBusy(t, x);
    }
    forall t: Chip, x: Input | tagged(Next(t, x))
      ensures keeps(x) && ((tagged(t) && tag(Next(t, x)) == tag(t)) || Accepts(t, x))
    {
      NextWriting(t, x);
    }
    forall t: Chip, x: Input | Changes(t, x) ensures tagged(t) && !keeps(x) {
      NextMemory(t, x);
    }
    var first := After(c, run, m);
    NextMemory(first, run[m]);
    forall t: Chip, x: Input | Accepts(t, x) ensures level(t) < 2 {
      BusyRefuses(t, x);
    }
    Runs.Apart(Next, Sound, level, Lasts(first.ctl.state), tagged, tag, Accepts, keeps, Changes, c, run, m, n);
  }

  /** This input changes the memory. */
  predicate Changes(c: Chip, i: Input) {
    Next(c, i).mem != c.mem
  }

  lemma BusyRefuses(c: Chip, i: Input)
    requires Accepts(c, i)
    ensures Left(c.ctl.status) < 2
  {
  }
}
