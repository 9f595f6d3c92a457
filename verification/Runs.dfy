/** Runs of a state machine, one input at a time. */
module Runs {

  /** The state after the first n inputs. */
  function After<S, I>(next: (S, I) -> S, s: S, run: seq<I>, n: nat): S
    requires n <= |run|
  {
    if n == 0 then s else next(After(next, s, run, n - 1), run[n - 1])
  }

  lemma {:induction false} Invariant<S(!new), I(!new)>(next: (S, I) -> S, inv: S -> bool, s: S, run: seq<I>, n: nat)
    requires n <= |run| && inv(s)
    requires forall t, i {:trigger next(t, i)} :: inv(t) ==> inv(next(t, i))
    ensures inv(After(next, s, run, n))
  {
    if n > 0 {
      Invariant(next, inv, s, run, n - 1);
    }
  }

  /** A tag that is not there at the start was set by some input, and has stayed since. */
  lemma {:induction false} Origin<S(!new), I(!new), T(!new)>(
    next: (S, I) -> S, tagged: S -> bool, tag: S -> T, sets: (S, I) -> bool, keeps: I -> bool,
    s: S, run: seq<I>, n: nat) returns (i: nat)
    requires n <= |run| && !tagged(s) && tagged(After(next, s, run, n))
    requires forall t, x {:trigger next(t, x)} :: tagged(next(t, x)) ==>
                              keeps(x) && ((tagged(t) && tag(next(t, x)) == tag(t)) || sets(t, x))
    ensures i < n && sets(After(next, s, run, i), run[i])
    ensures tag(After(next, s, run, i + 1)) == tag(After(next, s, run, n))
    ensures forall j :: i <= j < n ==> keeps(run[j])
  {
    var t := After(next, s, run, n - 1);
    if sets(t, run[n - 1]) {
      i := n - 1;
    } else {
      i := Origin(next, tagged, tag, sets, keeps, s, run, n - 1);
    }
  }

  /** A level that falls by at most one with every input takes its time to run out. */
  lemma {:induction false} FallsSlowly<S(!new), I(!new)>(
    next: (S, I) -> S, inv: S -> bool, level: S -> int, top: int, s: S, run: seq<I>, m: nat, i: nat)
    requires m < i <= |run| && inv(s) && level(next(After(next, s, run, m), run[m])) >= top
    requires forall t, i {:trigger next(t, i)} :: inv(t) ==> inv(next(t, i)) && level(next(t, i)) >= level(t) - 1
    ensures level(After(next, s, run, i)) >= top - (i - m - 1)
  {
    if m + 1 < i {
      FallsSlowly(next, inv, level, top, s, run, m, i - 1);
      Invariant(next, inv, s, run, i - 1);
    }
  }

  /** When an act needs a tag that cannot be set while the level is up, two acts are at least as far apart as the
      level to which the first puts it. */
  lemma Apart<S(!new), I(!new), T(!new)>(
    next: (S, I) -> S, inv: S -> bool, level: S -> int, top: int, tagged: S -> bool, tag: S -> T,
    sets: (S, I) -> bool, keeps: I -> bool, acts: (S, I) -> bool, s: S, run: seq<I>, m: nat, n: nat)
    requires m < n < |run| && inv(s) && !tagged(s)
    requires acts(After(next, s, run, m), run[m]) && acts(After(next, s, run, n), run[n])
    requires forall t, i {:trigger next(t, i)} :: inv(t) ==> inv(next(t, i)) && level(next(t, i)) >= level(t) - 1
    requires forall t, x {:trigger next(t, x)} :: tagged(next(t, x)) ==>
                              keeps(x) && ((tagged(t) && tag(next(t, x)) == tag(t)) || sets(t, x))
    requires forall t, x {:trigger acts(t, x)} :: acts(t, x) ==> tagged(t) && !keeps(x)
    requires level(next(After(next, s, run, m), run[m])) >= top
    requires forall t, x {:trigger sets(t, x)} :: sets(t, x) ==> level(t) < 2
    ensures n - m > top
  {
    assert acts(After(next, s, run, m), run[m]) && acts(After(next, s, run, n), run[n]);
    var i := Origin(next, tagged, tag, sets, keeps, s, run, n);
    assert i > m by {
      assert !keeps(run[m]);
    }
    FallsSlowly(next, inv, level, top, s, run, m, i);
    assert sets(After(next, s, run, i), run[i]);
  }

  function Iterate<S>(step: S -> S, s: S, n: nat): S {
    if n == 0 then s else Iterate(step, step(s), n - 1)
  }

  lemma {:induction false} IterateKeeps<S(!new)>(step: S -> S, inv: S -> bool, s: S, n: nat)
    requires inv(s) && forall t {:trigger step(t)} :: inv(t) ==> inv(step(t))
    ensures inv(Iterate(step, s, n))
  {
    if n > 0 {
      IterateKeeps(step, inv, step(s), n - 1);
    }
  }

  /** What comes closer with every step gets there. */
  lemma {:induction false} IterateReaches<S(!new)>(step: S -> S, inv: S -> bool, goal: S -> bool, distance: S -> nat, s: S)
    requires inv(s)
    requires forall t {:trigger step(t)} :: inv(t) && !goal(t) ==> inv(step(t)) && distance(step(t)) < distance(t)
    ensures exists n: nat :: goal(Iterate(step, s, n))
    decreases distance(s)
  {
    if goal(s) {
      assert goal(Iterate(step, s, 0));
    } else {
      IterateReaches(step, inv, goal, distance, step(s));
      var n: nat :| goal(Iterate(step, step(s), n));
      assert Iterate(step, s, n + 1) == Iterate(step, step(s), n);
    }
  }
}
