/** The host end of the debug bus as values: what TTYBUS remembers between calls and the characters
    each call sends (sw/host/ttybus.cpp), and the proof that the device acts on them as the plain
    loops of sw/host/devbus.h:83-121 would. */
module TtyCode {
  import opened SixBit
  import opened WbuDevice
  import Arith

  /** The state TTYBUS keeps.  Of the 512 write-table slots only the first 256 are ever used. */
  datatype Host = Host(
    addrSet: bool,
    last: Word,
    wraddr: nat,
    wrloaded: bool,
    wtbl: seq<Word>,
    rdaddr: nat,
    rtbl: seq<Word>)

  ghost predicate HostValid(h: Host) {
    && |h.wtbl| == 512 && h.wraddr < 256
    && |h.rtbl| == 1024 && h.rdaddr < 1024
    && (h.addrSet ==> h.last % 4 == 0)
  }

  // ---------------------------------------------------------------------------------------------
  // Addresses

  /** The difference formats.  The difference is an unsigned 32-bit subtraction shifted right, so it
      is never negative. */
  function DiffCode(d: nat): (c: seq<Six>) {
    if d < 32 then [9] + Digits(d, 1)
    else if d < 2048 then [11] + Digits(d, 2)
    else if d < 131072 then [13] + Digits(d, 3)
    else if d < 8388608 then [15] + Digits(d, 4)
    else []
  }

  function AbsCode(w: nat, diff: seq<Six>): (c: seq<Six>)
    requires w < 1073741824
  {
    if w < 64 && (diff == [] || |diff| >= 2) then [8] + Digits(w, 1)
    else if w < 4096 && (diff == [] || |diff| >= 3) then [10] + Digits(w, 2)
    else if w < 262144 && (diff == [] || |diff| >= 4) then [12] + Digits(w, 3)
    else if w < 16777216 && (diff == [] || |diff| >= 5) then [14] + Digits(w, 4)
    else if diff == [] then [0] + Digits(w, 5)
    else diff
  }

  function AddressCode(addrSet: bool, last: Word, a: Word): (c: seq<Six>) {
    if addrSet && a == last then []
    else AbsCode(a / 4, if addrSet then DiffCode((a - last) % WORD_LIMIT / 4) else [])
  }

  lemma TailDigits(v: Six, n: nat, k: nat)
    requires n < Place(k)
    ensures Val(([v] + Digits(n, k))[1..]) == n
  {
    assert ([v] + Digits(n, k))[1..] == Digits(n, k);
    DigitsVal(n, k);
    Arith.SmallMod(n, Place(k));
  }

  lemma AddressHead(k: nat)
    requires 1 <= k <= 4
    ensures CodeLen(6 + 2 * k) == k + 1 && (6 + 2 * k) % 2 == 0
    ensures CodeLen(7 + 2 * k) == k + 1 && (7 + 2 * k) % 2 == 1
  {
  }

  lemma RelDecodes(d: nat, k: nat, c: seq<Six>)
    requires 1 <= k <= 4 && d < 32 * Place(k - 1) && c == [7 + 2 * k] + Digits(d, k)
    ensures Complete(c) && Decode(c) == SetRel(d)
  {
    AddressHead(k);
    TailDigits(7 + 2 * k, d, k);
  }

  lemma AbsDecodes(w: nat, k: nat, c: seq<Six>)
    requires 1 <= k <= 4 && w < Place(k) && c == [6 + 2 * k] + Digits(w, k)
    ensures Complete(c) && Decode(c) == SetAbs(w)
  {
    AddressHead(k);
    TailDigits(6 + 2 * k, w, k);
  }

  lemma DiffCodeDecodes(d: nat)
    requires DiffCode(d) != []
    ensures var c := DiffCode(d); Complete(c) && |c| <= 5 && Decode(c) == SetRel(d)
  {
    PlaceValues();
    RelDecodes(d, |DiffCode(d)| - 1, DiffCode(d));
  }

  lemma AbsCodeDecodes(w: nat, diff: seq<Six>)
    requires w < 1073741824
    ensures var c := AbsCode(w, diff);
            c == diff || (Complete(c) && Decode(c) == SetAbs(w))
    ensures diff == [] ==> AbsCode(w, diff) != []
  {
    PlaceValues();
    var c := AbsCode(w, diff);
    if c != diff {
      if c[0] == 0 {
        TailDigits(0, w, 5);
      } else {
        AbsDecodes(w, |c| - 1, c);
      }
    }
  }

  /** Every non-empty address code is one complete codeword that moves a device standing at `last`
      (when the host knows where it stands) to `a`, across the 2^32 wrap as well. */
  lemma AddressCodeDecodes(addrSet: bool, last: Word, a: Word)
    requires a % 4 == 0 && (addrSet ==> last % 4 == 0)
    ensures var c := AddressCode(addrSet, last, a);
            if addrSet && a == last then c == []
            else Complete(c) && (|| Decode(c) == SetAbs(a / 4)
                                 || (addrSet && Decode(c) == SetRel((a - last) % WORD_LIMIT / 4)))
  {
    var diff := if addrSet then DiffCode((a - last) % WORD_LIMIT / 4) else [];
    AbsCodeDecodes(a / 4, diff);
    if diff != [] {
      DiffCodeDecodes((a - last) % WORD_LIMIT / 4);
    }
  }

  lemma AddressCodeFits(addrSet: bool, last: Word, a: Word)
    ensures |AddressCode(addrSet, last, a)| <= 6
  {
  }

  lemma AddressCodeEmpty(addrSet: bool, last: Word, a: Word)
    ensures AddressCode(addrSet, last, a) == [] <==> addrSet && a == last
  {
  }

  /** A codeword that takes a device from word address `from` to `to`. */
  ghost predicate Moves(cw: seq<Six>, from: int, to: int) {
    && Complete(cw)
    && match Decode(cw)
       case SetAbs(n) => n % 1073741824 == to
       case SetRel(n) => (from + n) % 1073741824 == to
       case _ => false
  }

  ghost predicate Backward(cw: seq<Six>) {
    Complete(cw) && Decode(cw).SetRel? && Decode(cw).n < 0
  }

  lemma AddressCodeLength(last: Word, a: Word, k: nat)
    requires 1 <= k <= 4
    ensures |AddressCode(true, last, a)| <= 6
    ensures a / 4 < Place(k) ==> |AddressCode(true, last, a)| <= k + 1
    ensures (a - last) % WORD_LIMIT / 4 < 32 * Place(k - 1) ==> |AddressCode(true, last, a)| <= k + 1
  {
    PlaceValues();
  }

  /** The code is as short as any codeword the device understands for this move, backward
      differences aside. */
  lemma AddressCodeShortest(last: Word, a: Word, cw: seq<Six>)
    requires a % 4 == 0 && last % 4 == 0
    requires Moves(cw, last / 4, a / 4) && !Backward(cw)
    ensures |AddressCode(true, last, a)| <= |cw|
  {
    var k := |cw| - 1;
    AddressCodeLength(last, a, if k <= 4 then k else 4);
    if k <= 4 {
      var n := ArgBound(cw);
      StepDifference(last, a, n);
    }
  }

  lemma StepDifference(last: Word, a: Word, n: nat)
    requires a % 4 == 0 && last % 4 == 0 && n < 16777216
    ensures n % 1073741824 == a / 4 ==> n == a / 4
    ensures (last / 4 + n) % 1073741824 == a / 4 ==> n == (a - last) % WORD_LIMIT / 4
  {
    Arith.SmallMod(n, 1073741824);
    if (last / 4 + n) % 1073741824 == a / 4 {
      StepBetween(last / 4, n, a / 4);
      WordDifference(last, a);
    }
  }

  /** The step between two word addresses is determined modulo the address space. */
  lemma StepBetween(from: int, n: int, to: int)
    requires (from + n) % 1073741824 == to && 0 <= n < 1073741824
    ensures n == (to - from) % 1073741824
  {
    var q := (from + n) / 1073741824;
    Arith.DivModUnique(to - from, 1073741824, -q, n);
  }

  lemma ArgBound(cw: seq<Six>) returns (n: nat)
    requires Complete(cw) && |cw| <= 5
    requires Decode(cw).SetAbs? || (Decode(cw).SetRel? && Decode(cw).n >= 0)
    ensures Decode(cw) == SetAbs(n) || Decode(cw) == SetRel(n)
    ensures n < if Decode(cw).SetAbs? then Place(|cw| - 1) else 32 * Place(|cw| - 2)
    ensures n < 16777216
  {
    n := Decode(cw).n;
    PlaceValues();
    assert Place(|cw| - 1) <= 16777216;
    assert 0 <= Val(cw[1..]) < Place(|cw| - 1) by { assert |cw[1..]| == |cw| - 1; }
  }

  /** The distance back from `last` to `a`, in words. */
  function BackBy(last: Word, a: Word): int {
    (last - a) % WORD_LIMIT / 4
  }

  /** A backward difference of k digits reaches `a`, and is shorter than what the host sends. */
  ghost predicate ShorterBack(last: Word, a: Word, k: nat) {
    1 <= k <= 4 && k + 1 < |AddressCode(true, last, a)| && BackBy(last, a) <= 32 * Place(k - 1)
  }

  /** Backward differences are the exception.  The host's code is as short as any the device understands if and
      only if no backward difference with fewer digits reaches the address. */
  lemma AddressCodeShortestIff(last: Word, a: Word)
    requires last % 4 == 0 && a % 4 == 0 && last != a
    ensures (forall cw :: Moves(cw, last / 4, a / 4) ==> |AddressCode(true, last, a)| <= |cw|) <==>
              !exists k :: ShorterBack(last, a, k)
  {
    if exists k :: ShorterBack(last, a, k) {
      var k :| ShorterBack(last, a, k);
      var cw := BackCode(last, a, k);
      assert Moves(cw, last / 4, a / 4) && |cw| < |AddressCode(true, last, a)|;
    } else {
      forall cw | Moves(cw, last / 4, a / 4) ensures |AddressCode(true, last, a)| <= |cw| {
        if Backward(cw) {
          BackReaches(last, a, cw);
          assert !ShorterBack(last, a, |cw| - 1);
        } else {
          AddressCodeShortest(last, a, cw);
        }
      }
    }
  }

  lemma BackBounds(last: Word, a: Word)
    requires last % 4 == 0 && a % 4 == 0 && last != a
    ensures 1 <= BackBy(last, a) < 1073741824 && (last / 4 - BackBy(last, a)) % 1073741824 == a / 4
  {
    WordDifference(a, last);
    var q := (last / 4 - a / 4) / 1073741824;
    Arith.DivModUnique(last / 4 - BackBy(last, a), 1073741824, q, a / 4);
  }

  /** The codeword for a step back. */
  lemma BackCode(last: Word, a: Word, k: nat) returns (cw: seq<Six>)
    requires last % 4 == 0 && a % 4 == 0 && last != a && 1 <= k <= 4 && BackBy(last, a) <= 32 * Place(k - 1)
    ensures Moves(cw, last / 4, a / 4) && |cw| == k + 1
  {
    BackBounds(last, a);
    PlaceValues();
    var b := BackBy(last, a);
    var arg := Place(k) - b;
    cw := [7 + 2 * k] + Digits(arg, k);
    AddressHead(k);
    TailDigits(7 + 2 * k, arg, k);
    assert SignExtend(arg, k) == -b;
  }

  /** A codeword that steps back is long enough for the distance. */
  lemma BackReaches(last: Word, a: Word, cw: seq<Six>)
    requires last % 4 == 0 && a % 4 == 0 && last != a && Moves(cw, last / 4, a / 4) && Backward(cw)
    ensures 2 <= |cw| <= 5 && BackBy(last, a) <= 32 * Place(|cw| - 2)
  {
    PlaceValues();
    BackBounds(last, a);
    assert |cw[1..]| == |cw| - 1;
    var m := -Decode(cw).n;
    SameStepBack(last / 4, m, BackBy(last, a), a / 4);
  }

  lemma SameStepBack(from: int, m: int, b: int, to: int)
    requires 0 < m < 1073741824 && 0 < b < 1073741824
    requires (from - m) % 1073741824 == to && (from - b) % 1073741824 == to
    ensures m == b
  {
    var p, q := (from - m) / 1073741824, (from - b) / 1073741824;
    assert m - b == 1073741824 * (q - p);
  }

  /** For instance, one word back costs two characters on the wire, but the host spends six. */
  lemma BackwardStepIsLong()
    ensures ShorterBack(0x10000000, 0xffffffc, 1) && |AddressCode(true, 0x10000000, 0xffffffc)| == 6
  {
    PlaceValues();
  }

  // ---------------------------------------------------------------------------------------------
  // Writes

  /** The write-table slots whose content host and device both know. */
  predicate Written(h: Host, slot: nat) {
    slot < 256 && if h.wrloaded then slot != h.wraddr else slot < h.wraddr
  }

  /** The table slot k words back. */
  function Slot(wraddr: nat, k: nat): (slot: nat)
    requires wraddr < 256 && k <= 256
    ensures slot == (wraddr - k) % 256
  {
    if k <= wraddr then wraddr - k else wraddr - k + 256
  }

  /** Distance back to the nearest known slot holding w, searching from distance i; 0 when there is
      none. */
  function FindBack(h: Host, w: Word, i: nat): (c: nat)
    requires |h.wtbl| == 512 && h.wraddr < 256 && 1 <= i <= 256
    ensures c <= 255
    decreases 256 - i
  {
    if i == 256 then 0 else
    var slot := Slot(h.wraddr, i);
    if !h.wrloaded && slot > h.wraddr then 0
    else if h.wtbl[slot] == w then i
    else FindBack(h, w, i + 1)
  }

  /** No known slot at a distance in [lo, hi) holds w. */
  ghost predicate NotWithin(h: Host, w: Word, lo: nat, hi: nat)
    requires |h.wtbl| == 512 && h.wraddr < 256 && hi <= 256
  {
    forall k :: lo <= k < hi && Written(h, Slot(h.wraddr, k)) ==> h.wtbl[Slot(h.wraddr, k)] != w
  }

  /** The search is sound and complete: a distance between 1 and 255 to a known slot with that very
      word, the nearest one; or 0 exactly when no known slot holds the word. */
  lemma {:induction false} FindBackFinds(h: Host, w: Word, i: nat)
    requires HostValid(h) && 1 <= i <= 256
    ensures var c := FindBack(h, w, i);
            && (c == 0 ==> NotWithin(h, w, i, 256))
            && (c != 0 ==> i <= c && NotWithin(h, w, i, c) && Written(h, Slot(h.wraddr, c))
                           && h.wtbl[Slot(h.wraddr, c)] == w)
    decreases 256 - i
  {
    if i < 256 {
      var slot := Slot(h.wraddr, i);
      if !(!h.wrloaded && slot > h.wraddr) && h.wtbl[slot] != w {
        FindBackFinds(h, w, i + 1);
      }
    }
  }

  function Bit(b: bool): Six {
    if b then 1 else 0
  }

  /** The codeword for one written word. */
  function WordCode(h: Host, inc: bool, w: Word): (c: seq<Six>)
    requires |h.wtbl| == 512 && h.wraddr < 256
  {
    var back := FindBack(h, w, 1);
    if back != 0 then [16 + 2 * (back / 64) + Bit(inc), back % 64]
    else [24 + 2 * (w / 1073741824) + Bit(inc)] + Digits(w, 5)
  }

  /** Four bytes on, around the top of the address space, when incrementing. */
  function Advance(a: Word, inc: bool): Word {
    if !inc then a else if a >= WORD_LIMIT - 4 then a + 4 - WORD_LIMIT else a + 4
  }

  function AfterWord(h: Host, inc: bool, w: Word): (h': Host)
    requires |h.wtbl| == 512 && h.wraddr < 256
    ensures |h'.wtbl| == 512 && h'.wraddr < 256
  {
    var h1 := h.(last := Advance(h.last, inc));
    if FindBack(h, w, 1) != 0 then h1
    else h1.(wtbl := h.wtbl[h.wraddr := w], wraddr := (h.wraddr + 1) % 256,
             wrloaded := h.wrloaded || h.wraddr == 255)
  }

  /** Host and device agree: same table, same position, no open codeword. */
  ghost predicate Synced(h: Host, d: Device) {
    && HostValid(h)
    && d.partial == [] && d.wr == h.wraddr
    && (forall slot :: slot in d.dict <==> Written(h, slot))
    && (forall slot :: slot in d.dict ==> d.dict[slot] == h.wtbl[slot])
    && 0 <= d.waddr < WORD_LIMIT
    && (h.addrSet ==> BusAddr(d.waddr) == h.last)
  }

  lemma RefDecodes(back: nat, inc: bool, c: seq<Six>)
    requires back < 256 && c == [16 + 2 * (back / 64) + Bit(inc), back % 64]
    ensures Complete(c) && 16 <= c[0] < 32 && Decode(c) == WriteRef(back, inc)
  {
    assert c[1..] == [c[1]];
    assert Val(c[1..]) == c[1] by { assert c[1..][..0] == []; }
    assert c[0] / 2 % 4 == back / 64;
  }

  lemma RawDecodes(w: Word, inc: bool, c: seq<Six>)
    requires c == [24 + 2 * (w / 1073741824) + Bit(inc)] + Digits(w, 5)
    ensures Complete(c) && 16 <= c[0] < 32 && Decode(c) == WriteRaw(w, inc)
  {
    var hi := w / 1073741824;
    RawHead(hi, inc, c[0]);
    RawTail(c[0], w);
  }

  lemma RawHead(hi: nat, inc: bool, v: Six)
    requires hi < 4 && v == 24 + 2 * hi + Bit(inc)
    ensures v / 2 % 4 == hi && (v % 2 == 1 <==> inc) && CodeLen(v) == 6 && 24 <= v < 32
  {
  }

  lemma RawTail(v: Six, w: Word)
    ensures Val(([v] + Digits(w, 5))[1..]) == w % 1073741824
  {
    assert ([v] + Digits(w, 5))[1..] == Digits(w, 5);
    DigitsVal(w, 5);
    PlaceValues();
  }

  lemma BusAddrNext(waddr: int, inc: bool)
    requires 0 <= waddr < WORD_LIMIT
    ensures BusAddr((waddr + if inc then 1 else 0) % WORD_LIMIT) == Advance(BusAddr(waddr), inc)
  {
  }

  /** One word: the device writes it where the host means it to go, and the two tables still agree. */
  lemma WordStep(h: Host, d: Device, inc: bool, w: Word)
    requires Synced(h, d) && h.addrSet
    ensures var d' := Run(d, Chars(WordCode(h, inc, w)));
            && Synced(AfterWord(h, inc, w), d')
            && d'.events == d.events + [WriteEv(h.last, w)]
            && d'.lastWrite && d'.writing && !d'.newAddr
  {
    var c, back := WordCode(h, inc, w), FindBack(h, w, 1);
    if back != 0 {
      RefDecodes(back, inc, c);
    } else {
      RawDecodes(w, inc, c);
    }
    RunCodeword(d, c);
    WordPerform(h, d.(partial := [], lastWrite := true), inc, w);
  }

  lemma WordPerform(h: Host, d: Device, inc: bool, w: Word)
    requires Synced(h, d) && h.addrSet
    ensures var back := FindBack(h, w, 1);
            var d' := Perform(d, if back != 0 then WriteRef(back, inc) else WriteRaw(w, inc));
            && Synced(AfterWord(h, inc, w), d')
            && d'.events == d.events + [WriteEv(h.last, w)]
            && d'.lastWrite == d.lastWrite && d'.writing && !d'.newAddr
  {
    BusAddrNext(d.waddr, inc);
    var back := FindBack(h, w, 1);
    if back != 0 {
      FindBackFinds(h, w, 1);
      RefWrite(h, d, inc, w, back);
    } else {
      RawWrite(h, d, inc, w);
    }
  }

  lemma RefWrite(h: Host, d: Device, inc: bool, w: Word, back: nat)
    requires Synced(h, d) && 1 <= back <= 255
    requires Written(h, Slot(h.wraddr, back)) && h.wtbl[Slot(h.wraddr, back)] == w
    ensures Perform(d, WriteRef(back, inc)) == DoWrite(d, w, inc)
  {
  }

  lemma RawWrite(h: Host, d: Device, inc: bool, w: Word)
    requires Synced(h, d) && FindBack(h, w, 1) == 0
    ensures var d' := Perform(d, WriteRaw(w, inc)); var h' := AfterWord(h, inc, w);
            && d'.wr == h'.wraddr
            && (forall slot :: slot in d'.dict <==> Written(h', slot))
            && (forall slot :: slot in d'.dict ==> d'.dict[slot] == h'.wtbl[slot])
  {
  }

  /** The device is between commands. */
  predicate Quiet(d: Device) {
    d.partial == [] && !d.writing && !d.lastWrite
  }

  /** Sending the address code brings the device to `a` and announces a new address, if any was
      sent. */
  lemma AddressStep(h: Host, d: Device, a: Word)
    requires Synced(h, d) && Quiet(d) && a % 4 == 0
    ensures var c := AddressCode(h.addrSet, h.last, a); var d' := Run(d, Chars(c));
            && d' == d.(waddr := d'.waddr, newAddr := d.newAddr || c != [])
            && 0 <= d'.waddr < WORD_LIMIT && BusAddr(d'.waddr) == a
  {
    var c := AddressCode(h.addrSet, h.last, a);
    AddressCodeDecodes(h.addrSet, h.last, a);
    if c != [] {
      RunCodeword(d, c);
      MovePerform(d, h.last, a, Decode(c));
    }
  }

  lemma MovePerform(d: Device, last: Word, a: Word, cmd: Cmd)
    requires Quiet(d) && 0 <= d.waddr < WORD_LIMIT && a % 4 == 0
    requires || cmd == SetAbs(a / 4)
             || (cmd == SetRel((a - last) % WORD_LIMIT / 4) && BusAddr(d.waddr) == last)
    ensures var d' := Perform(d, cmd);
            && d' == d.(waddr := d'.waddr, newAddr := true)
            && 0 <= d'.waddr < WORD_LIMIT && BusAddr(d'.waddr) == a
  {
    if cmd.SetRel? {
      RelativeMove(d.waddr, last / 4, a / 4);
      WordDifference(last, a);
    }
  }

  lemma WordDifference(last: Word, a: Word)
    requires last % 4 == 0 && a % 4 == 0
    ensures (a - last) % WORD_LIMIT / 4 == (a / 4 - last / 4) % 1073741824
  {
  }

  lemma RelativeMove(waddr: int, from: int, to: int)
    requires from == waddr % 1073741824 && 0 <= to < 1073741824
    ensures (waddr + (to - from) % 1073741824) % WORD_LIMIT % 1073741824 == to
  {
  }

  function WordsCode(h: Host, inc: bool, ws: seq<Word>): (c: seq<Six>)
    requires |h.wtbl| == 512 && h.wraddr < 256
    decreases |ws|, 1
  {
    if ws == [] then [] else
    var init := ws[..|ws| - 1];
    WordsCode(h, inc, init) + WordCode(AfterWords(h, inc, init), inc, ws[|ws| - 1])
  }

  function AfterWords(h: Host, inc: bool, ws: seq<Word>): (h': Host)
    requires |h.wtbl| == 512 && h.wraddr < 256
    ensures |h'.wtbl| == 512 && h'.wraddr < 256
    decreases |ws|, 0
  {
    if ws == [] then h
    else AfterWord(AfterWords(h, inc, ws[..|ws| - 1]), inc, ws[|ws| - 1])
  }

  /** The plain loop: one bus write per word, four bytes on each time when incrementing. */
  function NaiveWrites(a: Word, inc: bool, ws: seq<Word>): (r: seq<Event>)
    ensures |r| == |ws|
  {
    seq(|ws|, i requires 0 <= i < |ws| => WriteEv(Along(a, inc, i), ws[i]))
  }

  function Along(a: Word, inc: bool, i: nat): Word {
    (a + if inc then 4 * i else 0) % WORD_LIMIT
  }

  /** Where the host believes each word goes. */
  ghost function HostWrites(h: Host, inc: bool, ws: seq<Word>): seq<Event>
    requires |h.wtbl| == 512 && h.wraddr < 256
  {
    if ws == [] then [] else
    var init := ws[..|ws| - 1];
    HostWrites(h, inc, init) + [WriteEv(AfterWords(h, inc, init).last, ws[|ws| - 1])]
  }

  lemma {:induction false} WordsSteps(h: Host, d: Device, inc: bool, ws: seq<Word>)
    requires Synced(h, d) && h.addrSet
    ensures var d' := Run(d, Chars(WordsCode(h, inc, ws))); var h' := AfterWords(h, inc, ws);
            && Synced(h', d') && h'.addrSet
            && d'.events == d.events + HostWrites(h, inc, ws)
            && (ws != [] ==> d'.lastWrite && d'.writing && !d'.newAddr)
  {
    if ws != [] {
      var init, w := ws[..|ws| - 1], ws[|ws| - 1];
      WordsSteps(h, d, inc, init);
      var h1, d1 := AfterWords(h, inc, init), Run(d, Chars(WordsCode(h, inc, init)));
      WordStep(h1, d1, inc, w);
      CharsConcat(WordsCode(h, inc, init), WordCode(h1, inc, w));
      RunConcat(d, Chars(WordsCode(h, inc, init)), Chars(WordCode(h1, inc, w)));
    }
  }

  lemma {:induction false} AfterWordsKeeps(h: Host, inc: bool, ws: seq<Word>)
    requires |h.wtbl| == 512 && h.wraddr < 256
    ensures var h' := AfterWords(h, inc, ws);
            h'.addrSet == h.addrSet && h'.rdaddr == h.rdaddr && h'.rtbl == h.rtbl
  {
    if ws != [] {
      AfterWordsKeeps(h, inc, ws[..|ws| - 1]);
    }
  }

  lemma {:induction false} AfterWordsLast(h: Host, inc: bool, ws: seq<Word>)
    requires |h.wtbl| == 512 && h.wraddr < 256
    ensures AfterWords(h, inc, ws).last == Along(h.last, inc, |ws|)
  {
    if ws == [] {
      AlongStart(h.last, inc);
    } else {
      AfterWordsLast(h, inc, ws[..|ws| - 1]);
      AlongStep(h.last, inc, |ws| - 1);
    }
  }

  lemma {:induction false} HostWritesAreNaive(h: Host, inc: bool, ws: seq<Word>)
    requires |h.wtbl| == 512 && h.wraddr < 256
    ensures HostWrites(h, inc, ws) == NaiveWrites(h.last, inc, ws)
  {
    if ws != [] {
      var init := ws[..|ws| - 1];
      HostWritesAreNaive(h, inc, init);
      AfterWordsLast(h, inc, init);
      NaiveWritesAppend(h.last, inc, ws);
    }
  }

  lemma NaiveWritesAppend(a: Word, inc: bool, ws: seq<Word>)
    requires ws != []
    ensures var n := |ws| - 1;
            NaiveWrites(a, inc, ws) == NaiveWrites(a, inc, ws[..n]) + [WriteEv(Along(a, inc, n), ws[n])]
  {
  }

  lemma AlongStart(a: Word, inc: bool)
    ensures Along(a, inc, 0) == a
  {
  }

  lemma AlongStep(a: Word, inc: bool, n: nat)
    ensures Advance(Along(a, inc, n), inc) == Along(a, inc, n + 1)
  {
  }

  /** What a call leaves behind, sends, and whether it threw. */
  datatype Outcome = Outcome(host: Host, sent: seq<char>, err: bool)

  /** The host's view once an address has been encoded for a write. */
  function AtAddress(h: Host, a: Word): Host {
    h.(addrSet := true, last := a,
       rdaddr := if AddressCode(h.addrSet, h.last, a) == [] then h.rdaddr else 0)
  }

  /** writeio, writez and writei all come here.  A misaligned address throws before anything is sent;
      an empty buffer records the address but sends nothing at all. */
  function WriteCall(h: Host, a: Word, inc: bool, ws: seq<Word>): Outcome
    requires HostValid(h)
  {
    if a % 4 != 0 then Outcome(h, [], true) else
    var h1 := AtAddress(h, a);
    if ws == [] then Outcome(h1, [], false)
    else Outcome(AfterWords(h1, inc, ws),
                 Chars(AddressCode(h.addrSet, h.last, a)) + Chars(WordsCode(h1, inc, ws)) + ['\n'],
                 false)
  }

  /** The compressed write is the plain loop of writes: same addresses, same values, same order, and
      host and device agree again afterwards.  No junk and no error event can be among them. */
  lemma WriteCallRefinesLoop(h: Host, d: Device, a: Word, inc: bool, ws: seq<Word>)
    requires Synced(h, d) && Quiet(d) && a % 4 == 0 && ws != []
    ensures var o := WriteCall(h, a, inc, ws); var d' := Run(d, o.sent);
            && !o.err && Synced(o.host, d') && Quiet(d') && o.host.addrSet
            && o.host.last == Along(a, inc, |ws|)
            && d'.events == d.events + NaiveWrites(a, inc, ws)
            && !d'.newAddr
  {
    var c := AddressCode(h.addrSet, h.last, a);
    var h1, d1 := AtAddress(h, a), Run(d, Chars(c));
    AddressStep(h, d, a);
    WordsSteps(h1, d1, inc, ws);
    HostWritesAreNaive(h1, inc, ws);
    AfterWordsKeeps(h1, inc, ws);
    AfterWordsLast(h1, inc, ws);
    var wc := Chars(WordsCode(h1, inc, ws));
    var d2 := Run(d1, wc);
    RunConcat(d, Chars(c), wc);
    RunConcat(d, Chars(c) + wc, ['\n']);
    RunNewline(d2);
  }

  // ---------------------------------------------------------------------------------------------
  // The empty write

  lemma {:induction false} FindBackSame(h: Host, g: Host, w: Word, i: nat)
    requires |h.wtbl| == 512 && h.wraddr < 256 && 1 <= i <= 256
    requires h.wtbl == g.wtbl && h.wraddr == g.wraddr && h.wrloaded == g.wrloaded
    ensures FindBack(h, w, i) == FindBack(g, w, i)
    decreases 256 - i
  {
    if i < 256 {
      FindBackSame(h, g, w, i + 1);
    }
  }

  /** The words' code depends on the table alone, not on where the host thinks it stands. */
  lemma {:induction false} WordsCodeSame(h: Host, g: Host, inc: bool, ws: seq<Word>)
    requires HostValid(h) && HostValid(g)
    requires h.wtbl == g.wtbl && h.wraddr == g.wraddr && h.wrloaded == g.wrloaded
    ensures WordsCode(h, inc, ws) == WordsCode(g, inc, ws)
    ensures var h', g' := AfterWords(h, inc, ws), AfterWords(g, inc, ws);
            h'.wtbl == g'.wtbl && h'.wraddr == g'.wraddr && h'.wrloaded == g'.wrloaded
  {
    if ws != [] {
      var init := ws[..|ws| - 1];
      WordsCodeSame(h, g, inc, init);
      WordCodeSame(AfterWords(h, inc, init), AfterWords(g, inc, init), inc, ws[|ws| - 1]);
    }
  }

  lemma WordCodeSame(h: Host, g: Host, inc: bool, w: Word)
    requires |h.wtbl| == 512 && h.wraddr < 256
    requires h.wtbl == g.wtbl && h.wraddr == g.wraddr && h.wrloaded == g.wrloaded
    ensures WordCode(h, inc, w) == WordCode(g, inc, w)
    ensures var h', g' := AfterWord(h, inc, w), AfterWord(g, inc, w);
            h'.wtbl == g'.wtbl && h'.wraddr == g'.wraddr && h'.wrloaded == g'.wrloaded
  {
    FindBackSame(h, g, w, 1);
  }

  /** An empty write sends nothing, yet moves the host's idea of the device's address: the two still
      agree exactly when the device was there already. */
  lemma EmptyWriteDesynchronises(h: Host, d: Device, a: Word, inc: bool)
    requires Synced(h, d) && a % 4 == 0
    ensures var o := WriteCall(h, a, inc, []);
            !o.err && o.sent == [] && (Synced(o.host, d) <==> a == BusAddr(d.waddr))
  {
  }

  /** What then goes wrong: every word of the next write to that address lands where the device was. */
  lemma EmptyWriteMisdirects(h: Host, d: Device, a: Word, inc: bool, ws: seq<Word>)
    requires Synced(h, d) && Quiet(d) && a % 4 == 0 && a != BusAddr(d.waddr) && ws != []
    ensures var o := WriteCall(WriteCall(h, a, inc, []).host, a, inc, ws);
            && Run(d, o.sent).events == d.events + NaiveWrites(BusAddr(d.waddr), inc, ws)
            && NaiveWrites(BusAddr(d.waddr), inc, ws) != NaiveWrites(a, inc, ws)
  {
    var l := BusAddr(d.waddr);
    var g := h.(addrSet := true, last := l);
    WriteCallRefinesLoop(g, d, l, inc, ws);
    AfterEmptyWrite(h, g, a, inc, ws);
    NaiveWritesApart(l, a, inc, ws);
  }

  /** The next write sends its words alone, as a host would that knew where the device is and wrote there. */
  lemma AfterEmptyWrite(h: Host, g: Host, a: Word, inc: bool, ws: seq<Word>)
    requires HostValid(h) && a % 4 == 0 && ws != [] && g == h.(addrSet := true, last := g.last) && g.last % 4 == 0
    ensures WriteCall(WriteCall(h, a, inc, []).host, a, inc, ws).sent == WriteCall(g, g.last, inc, ws).sent
  {
    var h1 := WriteCall(h, a, inc, []).host;
    WordsCodeSame(AtAddress(g, g.last), AtAddress(h1, a), inc, ws);
  }

  lemma NaiveWritesApart(a: Word, b: Word, inc: bool, ws: seq<Word>)
    requires a != b && ws != []
    ensures NaiveWrites(a, inc, ws) != NaiveWrites(b, inc, ws)
  {
    assert NaiveWrites(a, inc, ws)[0] != NaiveWrites(b, inc, ws)[0];
  }
}
