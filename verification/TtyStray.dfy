/** Dropping stray characters in place (sw/host/ttybus.cpp:134-150), whatever counts as stray. */
module TtyStray {
  /** The buffer and the destination cursor after the first i characters. */
  datatype Sweep = Sweep(b: seq<char>, dp: nat)

  ghost predicate SweepValid(w: Sweep, cs: seq<char>, i: nat) {
    |w.b| == |cs| && i <= |cs| && w.dp <= i
  }

  /** One character: a code is overwritten with the one at the destination cursor -- the copy goes the
      wrong way round. */
  function SweepStep(code: char -> bool, w: Sweep, i: nat): Sweep
    requires i < |w.b| && w.dp <= i
  {
    if code(w.b[i]) then Sweep(w.b[i := w.b[w.dp]], w.dp + 1) else w
  }

  function Swept(code: char -> bool, cs: seq<char>, i: nat): (w: Sweep)
    requires i <= |cs|
    ensures SweepValid(w, cs, i)
  {
    if i == 0 then Sweep(cs, 0) else SweepStep(code, Swept(code, cs, i - 1), i - 1)
  }

  /** What the routine means to keep. */
  function Codes(code: char -> bool, cs: seq<char>): (r: seq<char>)
    ensures forall c <- r :: code(c)
  {
    if cs == [] then [] else
    var n := |cs| - 1;
    Codes(code, cs[..n]) + if code(cs[n]) then [cs[n]] else []
  }

  /** No code comes after a stray character. */
  predicate StraysLast(code: char -> bool, cs: seq<char>) {
    forall i, j :: 0 <= i < j < |cs| && code(cs[j]) ==> code(cs[i])
  }

  /** f is the position of the first stray, or the length if there is none. */
  ghost predicate FirstStrayAt(code: char -> bool, cs: seq<char>, f: nat) {
    f <= |cs| && (forall k :: 0 <= k < f ==> code(cs[k])) && (f < |cs| ==> !code(cs[f]))
  }

  /** Before the first stray nothing moves; from then on its slot keeps the stray. */
  lemma {:induction false} SweptShape(code: char -> bool, cs: seq<char>, i: nat, f: nat)
    requires i <= |cs| && FirstStrayAt(code, cs, f)
    ensures var w := Swept(code, cs, i);
            && (forall k :: i <= k < |cs| ==> w.b[k] == cs[k])
            && (forall k :: 0 <= k <= f && k < |cs| ==> w.b[k] == cs[k])
            && w.dp >= (if i <= f then i else f) && (i <= f ==> w.dp == i)
  {
    if i > 0 {
      SweptShape(code, cs, i - 1, f);
    }
  }

  lemma {:induction false} SweptAhead(code: char -> bool, cs: seq<char>, i: nat)
    requires i <= |cs|
    ensures forall k :: i <= k < |cs| ==> Swept(code, cs, i).b[k] == cs[k]
  {
    if i > 0 {
      SweptAhead(code, cs, i - 1);
    }
  }

  lemma {:induction false} SweptCount(code: char -> bool, cs: seq<char>, i: nat)
    requires i <= |cs|
    ensures Swept(code, cs, i).dp == |Codes(code, cs[..i])|
  {
    if i > 0 {
      SweptAhead(code, cs, i - 1);
      SweptCount(code, cs, i - 1);
      assert cs[..i][..i - 1] == cs[..i - 1];
    }
  }

  lemma FindStray(code: char -> bool, cs: seq<char>) returns (f: nat)
    ensures FirstStrayAt(code, cs, f)
  {
    f := 0;
    while f < |cs| && code(cs[f])
      invariant f <= |cs| && forall k :: 0 <= k < f ==> code(cs[k])
    {
      f := f + 1;
    }
  }

  lemma {:induction false} CodesBeforeStray(code: char -> bool, cs: seq<char>, i: nat, f: nat)
    requires i <= |cs| && FirstStrayAt(code, cs, f) && forall j :: f <= j < |cs| ==> !code(cs[j])
    ensures var r := Codes(code, cs[..i]);
            |r| == (if i <= f then i else f) && forall k :: 0 <= k < |r| ==> r[k] == cs[k]
  {
    if i > 0 {
      CodesBeforeStray(code, cs, i - 1, f);
      assert cs[..i][..i - 1] == cs[..i - 1];
    }
  }

  lemma {:induction false} CodesBehindStray(code: char -> bool, cs: seq<char>, i: nat, f: nat, j: nat)
    requires i <= |cs| && FirstStrayAt(code, cs, f) && f < j < |cs| && code(cs[j])
    ensures |Codes(code, cs[..i])| >= (if i <= f then i else f) + (if j < i then 1 else 0)
  {
    if i > 0 {
      CodesBehindStray(code, cs, i - 1, f, j);
      assert cs[..i][..i - 1] == cs[..i - 1];
    }
  }

  lemma SweepClean(code: char -> bool, cs: seq<char>, f: nat)
    requires FirstStrayAt(code, cs, f) && forall j :: f <= j < |cs| ==> !code(cs[j])
    ensures var w := Swept(code, cs, |cs|); w.b[..w.dp] == Codes(code, cs)
  {
    var n := |cs|;
    assert cs[..n] == cs;
    SweptShape(code, cs, n, f);
    SweptCount(code, cs, n);
    CodesBeforeStray(code, cs, n, f);
  }

  lemma SweepFoul(code: char -> bool, cs: seq<char>, f: nat, j: nat)
    requires FirstStrayAt(code, cs, f) && f < j < |cs| && code(cs[j])
    ensures var w := Swept(code, cs, |cs|); f < w.dp && w.b[..w.dp][f] == cs[f]
    ensures var w := Swept(code, cs, |cs|); w.b[..w.dp] != Codes(code, cs)
  {
    var n := |cs|;
    assert cs[..n] == cs;
    SweptShape(code, cs, n, f);
    SweptCount(code, cs, n);
    CodesBehindStray(code, cs, n, f, j);
    var w := Swept(code, cs, n);
    assert w.b[..w.dp][f] in w.b[..w.dp];
  }

  /** lclreadcode returns the codes it read exactly when every stray comes after the last code: a
      single code behind a stray, and the caller sees the stray instead. */
  lemma SweepKeepsCodesIff(code: char -> bool, cs: seq<char>)
    ensures var w := Swept(code, cs, |cs|); w.b[..w.dp] == Codes(code, cs) <==> StraysLast(code, cs)
  {
    var f := FindStray(code, cs);
    if j :| f < j < |cs| && code(cs[j]) {
      SweepFoul(code, cs, f, j);
    } else {
      SweepClean(code, cs, f);
    }
  }
}
