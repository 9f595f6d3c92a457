/** Running a step function over a sequence of inputs. */
module Fold {

  function Run<S, T>(step: (S, T) -> S, s: S, xs: seq<T>): S {
    if xs == [] then s else step(Run(step, s, xs[..|xs| - 1]), xs[|xs| - 1])
  }

  lemma {:induction false} RunConcat<S, T>(step: (S, T) -> S, s: S, xs: seq<T>, ys: seq<T>)
    ensures Run(step, s, xs + ys) == Run(step, Run(step, s, xs), ys)
  {
    if ys == [] {
      assert xs + ys == xs;
    } else {
      var zs := xs + ys;
      assert zs[..|zs| - 1] == xs + ys[..|ys| - 1];
      RunConcat(step, s, xs, ys[..|ys| - 1]);
    }
  }

  /** An invariant that counts the inputs. */
  lemma {:induction false} RunCounts<S(!new), T(!new)>(
    step: (S, T) -> S, inv: (S, nat) -> bool, ok: T -> bool, top: nat, s: S, k: nat, xs: seq<T>)
    requires inv(s, k) && k + |xs| <= top && forall x <- xs :: ok(x)
    requires forall t, x, i: nat {:trigger step(t, x), inv(t, i)} :: inv(t, i) && k <= i < top && ok(x) ==> inv(step(t, x), i + 1)
    ensures inv(Run(step, s, xs), k + |xs|)
  {
    if xs != [] {
      var n := |xs| - 1;
      RunCounts(step, inv, ok, top, s, k, xs[..n]);
      assert inv(Run(step, s, xs[..n]), k + n) && ok(xs[n]);
    }
  }

  lemma RunLast<S, T>(step: (S, T) -> S, s: S, xs: seq<T>, before: S, after: S)
    requires xs != [] && before == Run(step, s, xs[..|xs| - 1]) && after == step(before, xs[|xs| - 1])
    ensures Run(step, s, xs) == after
  {
  }

  lemma RunSingle<S, T>(step: (S, T) -> S, s: S, x: T)
    ensures Run(step, s, [x]) == step(s, x)
  {
    assert [x][..0] == [];
  }

  /** Two extensions in a row are one extension. */
  lemma Extend<T>(s0: seq<T>, s1: seq<T>, s2: seq<T>, a: seq<T>, b: seq<T>)
    requires s1 == s0 + a && s2 == s1 + b
    ensures s2 == s0 + (a + b)
  {
  }

  /** Reading on where one left off. */
  lemma SliceOn<T>(s: seq<T>, i: nat, k: nat)
    requires i + k <= |s|
    ensures s[i..][..k] == s[i..i + k] && s[..i] + s[i..][..k] == s[..i + k] && s[i..][k..] == s[i + k..]
  {
  }

  lemma Append3<T>(a: seq<T>, b: seq<T>, c: seq<T>, d: seq<T>)
    ensures a + b + c + d == a + (b + c + d)
  {
  }

  lemma Regroup<T>(a: seq<T>, b: seq<T>, c: seq<T>, d: seq<T>, e: seq<T>)
    ensures a + b + (c + d + e) == a + (b + c + d) + e
  {
  }

  lemma DropFront<T>(a: seq<T>, b: seq<T>, m: nat)
    requires m <= |a|
    ensures (a + b)[m..] == a[m..] + b && (a + b)[..m] == a[..m]
  {
  }

  /** Moving one element across. */
  lemma Shift<T>(a: seq<T>, x: T, b: seq<T>)
    ensures a + ([x] + b) == a + [x] + b
  {
  }

  lemma Assoc<T>(a: seq<T>, b: seq<T>, c: seq<T>)
    ensures a + b + c == a + (b + c)
  {
  }

  /** A slice of a slice. */
  lemma Slice2<T>(s: seq<T>, i: nat, j: nat, k: nat, l: nat)
    requires i <= j <= |s| && k <= l <= j - i
    ensures s[i..j][k..l] == s[i + k..i + l]
  {
    var a, b := s[i..j][k..l], s[i + k..i + l];
    assert |a| == |b| && forall n :: 0 <= n < |a| ==> a[n] == s[i..j][k + n] == b[n];
  }
}
