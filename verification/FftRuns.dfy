/** Whole runs of the FFT upload: safety over any network, and when it completes over a good one. */
module FftRuns {
  import opened FftWire
  import opened FftProtocol
  import Runs

  function After(left: seq<Write>, run: seq<Event>, n: nat): World
    requires n <= |run|
  {
    Runs.After(Step, Begin(left), run, n)
  }

  lemma StepFull(w: World, e: Event)
    ensures forall id <- Step(w, e).full :: id in w.full || Holds(Step(w, e).device, id)
  {
  }

  /** The device has just taken the last word of this transfer. */
  predicate Holds(d: Device, id: int) {
    d.id == id && d.direction.Output? && d.posn == FftSize
  }

  /** No two transfers have the same id. */
  predicate Unique(log: seq<Transfer>) {
    forall i, j :: 0 <= i < j < |log| ==> log[i].id != log[j].id
  }

  lemma UniqueFresh(log: seq<Transfer>, t: Transfer)
    requires Unique(log + [t])
    ensures Unique(log) && Find(log, t.id) < 0
  {
    var all := log + [t];
    assert forall i :: 0 <= i < |log| ==> all[i] == log[i];
    assert all[|log|] == t;
  }

  lemma StepAppends(w: World, e: Event)
    ensures Step(w, e).log == if e.Start? && w.host.Idle? then w.log + [Transfer(NextId(w), e.data)] else w.log
  {
  }

  /** As long as no id has been used twice, every state of every run is in order. */
  lemma {:induction false} RunInv(left: seq<Write>, run: seq<Event>, n: nat)
    requires n <= |run| && Unique(After(left, run, n).log)
    ensures Inv(After(left, run, n))
  {
    if n > 0 {
      var w, e := After(left, run, n - 1), run[n - 1];
      Unfold(left, run, n);
      UniqueBefore(w, e);
      RunInv(left, run, n - 1);
      StepKeeps(w, e);
    }
  }

  lemma UniqueBefore(w: World, e: Event)
    requires Unique(Step(w, e).log)
    ensures Unique(w.log) && (e.Start? && w.host.Idle? ==> Find(w.log, NextId(w)) < 0)
  {
    StepAppends(w, e);
    if e.Start? && w.host.Idle? {
      UniqueFresh(w.log, Transfer(NextId(w), e.data));
    }
  }

  lemma Unfold(left: seq<Write>, run: seq<Event>, n: nat)
    requires 0 < n <= |run|
    ensures After(left, run, n) == Step(After(left, run, n - 1), run[n - 1])
  {
  }

  /** Over any run in which no id is used twice, with any loss, repetition, delay and reordering, and restarts of the
      device: the words written to the FFT since its last reset are exactly the first ones of the
      transfer the device holds, in order and in place; and a host that is uploading never runs past
      the end. */
  lemma UploadSafe(left: seq<Write>, run: seq<Event>, n: nat)
    requires n <= |run| && Unique(After(left, run, n).log)
    ensures var w := After(left, run, n);
            var d := w.device;
            && (d.id != -1 && d.posn <= FftSize ==>
                  Known(w.log, d.id) && d.writes == First(w.log[Find(w.log, d.id)].data, d.posn))
            && (w.host.Ready? ==> w.host.posn <= FftSize)
            && (w.host.Waiting? ==> w.host.posn + MaxLn <= FftSize)
  {
    RunInv(left, run, n);
    var w := After(left, run, n);
    if w.host.Waiting? {
      PartIs(w.log[|w.log| - 1].data, w.host.posn);
    }
  }

  /** The ids of one host process, counting from 8. */
  predicate Counted(w: World) {
    && w.lastId == (|w.log| + FirstId) % 0x1_0000
    && forall t :: 0 <= t < |w.log| ==> w.log[t].id == (t + FirstId + 1) % 0x1_0000
  }

  /** Without a restart of the host process, no id is used twice if and only if there are at most 65536 transfers. */
  lemma CountedUnique(left: seq<Write>, run: seq<Event>, n: nat)
    requires n <= |run| && forall e <- run :: !e.Reboot?
    ensures Unique(After(left, run, n).log) <==> |After(left, run, n).log| <= 0x1_0000
  {
    RunCounts(left, run, n);
    var log := After(left, run, n).log;
    if |log| <= 0x1_0000 {
      forall i, j | 0 <= i < j < |log| ensures log[i].id != log[j].id {
        Apart(i, j);
      }
    } else {
      assert log[0].id == log[0x1_0000].id;
    }
  }

  lemma Apart(i: nat, j: nat)
    requires i < j < i + 0x1_0000
    ensures (i + FirstId + 1) % 0x1_0000 != (j + FirstId + 1) % 0x1_0000
  {
  }

  lemma {:induction false} RunCounts(left: seq<Write>, run: seq<Event>, n: nat)
    requires n <= |run| && forall e <- run :: !e.Reboot?
    ensures Counted(After(left, run, n))
  {
    if n > 0 {
      RunCounts(left, run, n - 1);
      Unfold(left, run, n);
      StepCounts(After(left, run, n - 1), run[n - 1]);
    }
  }

  lemma StepCounts(w: World, e: Event)
    requires Counted(w) && !e.Reboot?
    ensures Counted(Step(w, e))
  {
  }

  /** An id is in the set of those held completely only if at some point of the run it was. */
  lemma {:induction false} FullWasHeld(left: seq<Write>, run: seq<Event>, n: nat, id: int) returns (i: nat)
    requires n <= |run| && id in After(left, run, n).full
    ensures i <= n && Holds(After(left, run, i).device, id)
  {
    Unfold(left, run, n);
    var w := After(left, run, n - 1);
    StepFull(w, run[n - 1]);
    if id in w.full {
      i := FullWasHeld(left, run, n - 1, id);
    } else {
      i := n;
    }
  }

  lemma {:induction false} LogGrows(left: seq<Write>, run: seq<Event>, i: nat, n: nat)
    requires i <= n <= |run|
    ensures After(left, run, i).log <= After(left, run, n).log
  {
    if i < n {
      LogGrows(left, run, i, n - 1);
      Unfold(left, run, n);
      StepAppends(After(left, run, n - 1), run[n - 1]);
    }
  }

  /** A host that has left its upload loop in the ordinary way was right to: at some earlier point the
      device held all the words of this very transfer. */
  lemma LeftMeansHeld(left: seq<Write>, run: seq<Event>, n: nat) returns (i: nat)
    requires n <= |run| && Unique(After(left, run, n).log) && After(left, run, n).host.Fetching?
    ensures var w := After(left, run, n);
            && w.log != [] && i <= n && After(left, run, i).device.id == Current(w)
            && After(left, run, i).device.writes == First(w.log[|w.log| - 1].data, FftSize)
  {
    RunInv(left, run, n);
    var w := After(left, run, n);
    i := FullWasHeld(left, run, n, Current(w));
    LogGrows(left, run, i, n);
    var log := After(left, run, i).log;
    assert forall k :: 0 <= k < |log| ==> log[k] == w.log[k];
    RunInv(left, run, i);
    SameId(log, w.log, Current(w));
  }

  /** In a unique log an id names one transfer. */
  lemma SameId(log: seq<Transfer>, more: seq<Transfer>, id: int)
    requires log <= more && Unique(more) && more != [] && more[|more| - 1].id == id && Find(log, id) >= 0
    ensures log[Find(log, id)] == more[|more| - 1]
  {
    var t := Find(log, id);
    assert more[t] == log[t];
  }
}
