/** The pipelined memory of sim/verilated/memsim.cpp: every request is acknowledged a fixed number of ticks
    later, out of a ring buffer whose size is a power of two. */
module MemSim {
  import opened Arith
  import opened Bitwise

  type Byte = n: nat | n < 256

  /** A 32-bit word as its bytes, and which of them a request selects. */
  datatype Word = Word(b3: Byte, b2: Byte, b1: Byte, b0: Byte)
  datatype Select = Select(s3: bool, s2: bool, s1: bool, s0: bool)

  const Zero: Word := Word(0, 0, 0, 0)

  /** A request; the low four bits of `sel` select the bytes. */
  datatype Request = Request(cyc: bool, stb: bool, we: bool, addr: nat, data: Word, sel: nat)

  function Selected(sel: nat): Select {
    Select(sel / 8 % 2 == 1, sel / 4 % 2 == 1, sel / 2 % 2 == 1, sel % 2 == 1)
  }

  /** What comes out of the pipeline on a tick. */
  datatype Slot = Slot(ack: bool, data: Word)

  // ---------------------------------------------------------------------------------------------
  // A plain memory with a queue of answers

  function Masked(old_: Word, data: Word, sel: Select): Word {
    Word(if sel.s3 then data.b3 else old_.b3, if sel.s2 then data.b2 else old_.b2,
         if sel.s1 then data.b1 else old_.b1, if sel.s0 then data.b0 else old_.b0)
  }

  /** A word as the number it is. */
  function Value(w: Word): nat {
    256 * (256 * (256 * w.b3 + w.b2) + w.b1) + w.b0
  }

  /** The mask of a select nibble: a byte of ones for each of its bits. */
  function Mask(sel: nat): (m: nat)
    ensures m <= 0xffff_ffff
  {
    0xff00_0000 * (sel / 8 % 2) + 0xff_0000 * (sel / 4 % 2) + 0xff00 * (sel / 2 % 2) + 0xff * (sel % 2)
  }

  /** Bit k of r comes from the data where the mask has it set, and from what was there otherwise. */
  predicate Picked(was: nat, data: nat, mask: nat, r: nat, k: nat) {
    BitAt(r, k) == if BitAt(mask, k) == 1 then BitAt(data, k) else BitAt(was, k)
  }

  /** As numbers, bit by bit. */
  lemma MaskedIs(was: Word, data: Word, sel: nat, k: nat)
    requires k < 32
    ensures Picked(Value(was), Value(data), Mask(sel), Value(Masked(was, data, Selected(sel))), k)
  {
    var r := Masked(was, data, Selected(sel));
    var i, j := k / 8, k % 8;
    var mask := Word(255 * (sel / 8 % 2), 255 * (sel / 4 % 2), 255 * (sel / 2 % 2), 255 * (sel % 2));
    ValueBits(was, i, j);
    ValueBits(data, i, j);
    ValueBits(mask, i, j);
    ValueBits(r, i, j);
    Lane(ByteOf(was, i), ByteOf(data, i), ByteOf(r, i), ByteOf(mask, i), j);
    assert Value(mask) == Mask(sel);
  }

  function ByteOf(w: Word, i: nat): Byte {
    if i == 0 then w.b0 else if i == 1 then w.b1 else if i == 2 then w.b2 else w.b3
  }

  lemma ValueBits(w: Word, i: nat, j: nat)
    requires i < 4 && j < 8
    ensures BitAt(Value(w), 8 * i + j) == BitAt(ByteOf(w, i), j)
  {
    var u: nat := 256 * w.b3 + w.b2;
    var t := 256 * u + w.b1;
    BitOfBytes(t, w.b0, 8 * i + j);
    if i >= 1 {
      BitOfBytes(u, w.b1, 8 * (i - 1) + j);
    }
    if i >= 2 {
      BitOfBytes(w.b3, w.b2, 8 * (i - 2) + j);
    }
  }

  /** One byte, whose mask is all ones or all zeros. */
  lemma Lane(was: Byte, data: Byte, r: Byte, mask: Byte, k: nat)
    requires k < 8 && ((mask == 255 && r == data) || (mask == 0 && r == was))
    ensures Picked(was, data, mask, r, k)
  {
    FullBits(k, 8);
    ZeroBits(k);
  }

  lemma {:induction false} FullBits(k: nat, n: nat)
    requires k < n
    ensures BitAt(Pow2(n) - 1, k) == 1 && Pow2(8) == 256
  {
    if k > 0 {
      FullBits(k - 1, n - 1);
      assert (Pow2(n) - 1) / 2 == Pow2(n - 1) - 1;
    }
  }

  function Stored(mem: seq<Word>, r: Request): (mem': seq<Word>)
    requires mem != []
    ensures |mem'| == |mem|
  {
    var i := r.addr % |mem|;
    if r.cyc && r.stb && r.we then mem[i := Masked(mem[i], r.data, Selected(r.sel))] else mem
  }

  /** The answer to a request: the word the memory holds right after it. */
  function Answer(mem: seq<Word>, r: Request): Slot
    requires mem != []
  {
    if r.cyc && r.stb then Slot(true, Stored(mem, r)[r.addr % |mem|]) else Slot(false, Zero)
  }

  function MemAfter(mem: seq<Word>, rs: seq<Request>): (mem': seq<Word>)
    requires mem != []
    ensures |mem'| == |mem|
  {
    if rs == [] then mem else Stored(MemAfter(mem, rs[..|rs| - 1]), rs[|rs| - 1])
  }

  /** The answers to all requests, in order. */
  function Answers(mem: seq<Word>, rs: seq<Request>): (a: seq<Slot>)
    requires mem != []
    ensures |a| == |rs|
  {
    if rs == [] then []
    else Answers(mem, rs[..|rs| - 1]) + [Answer(MemAfter(mem, rs[..|rs| - 1]), rs[|rs| - 1])]
  }

  /** This request writes this word of the memory. */
  predicate WritesTo(r: Request, a: nat, size: nat)
    requires size > 0
  {
    r.cyc && r.stb && r.we && r.addr % size == a % size
  }

  /** A word nobody writes stays as it is. */
  lemma {:induction false} Untouched(mem: seq<Word>, rs: seq<Request>, k: nat, a: nat)
    requires mem != [] && k <= |rs| && forall i :: k <= i < |rs| ==> !WritesTo(rs[i], a, |mem|)
    ensures MemAfter(mem, rs)[a % |mem|] == MemAfter(mem, rs[..k])[a % |mem|]
  {
    if k < |rs| {
      var n := |rs| - 1;
      Untouched(mem, rs[..n], k, a);
      assert rs[..n][..k] == rs[..k];
      assert !WritesTo(rs[n], a, |mem|);
    } else {
      assert rs[..k] == rs;
    }
  }

  /** A read is answered with what the last write to its address left there: the whole word, if it selected all four
      bytes; and what was there at the start, if there was none. */
  lemma ReadAnswers(mem: seq<Word>, rs: seq<Request>, k: nat, r: Request)
    requires mem != [] && k < |rs| && r.cyc && r.stb && !r.we
    requires forall i :: k < i < |rs| ==> !WritesTo(rs[i], r.addr, |mem|)
    ensures WritesTo(rs[k], r.addr, |mem|) && rs[k].sel % 16 == 15 ==>
              Answer(MemAfter(mem, rs), r) == Slot(true, rs[k].data)
    ensures (forall i :: 0 <= i < |rs| ==> !WritesTo(rs[i], r.addr, |mem|)) ==>
              Answer(MemAfter(mem, rs), r) == Slot(true, mem[r.addr % |mem|])
  {
    if WritesTo(rs[k], r.addr, |mem|) {
      Untouched(mem, rs, k + 1, r.addr);
      assert rs[..k + 1][..k] == rs[..k];
      AllBytes(MemAfter(mem, rs[..k])[r.addr % |mem|], rs[k].data, rs[k].sel);
    }
    if forall i :: 0 <= i < |rs| ==> !WritesTo(rs[i], r.addr, |mem|) {
      Untouched(mem, rs, 0, r.addr);
      assert rs[..0] == [];
    }
  }

  lemma AllBytes(was: Word, data: Word, sel: nat)
    ensures sel % 16 == 15 ==> Masked(was, data, Selected(sel)) == data
  {
    if sel % 16 == 15 {
      var q := sel / 16;
      DivModUnique(sel, 8, 2 * q + 1, 7);
      DivModUnique(sel, 4, 4 * q + 3, 3);
      DivModUnique(sel, 2, 8 * q + 7, 1);
      OddAll(q);
    }
  }

  lemma OddAll(q: nat)
    ensures (2 * q + 1) % 2 == 1 && (4 * q + 3) % 2 == 1 && (8 * q + 7) % 2 == 1
  {
    DivModUnique(2 * q + 1, 2, q, 1);
    DivModUnique(4 * q + 3, 2, 2 * q + 1, 1);
    DivModUnique(8 * q + 7, 2, 4 * q + 3, 1);
  }

  /** A write is answered with the word it leaves, and nothing is answered to a tick without a request. */
  lemma WriteAnswers(mem: seq<Word>, r: Request)
    requires mem != []
    ensures r.cyc && r.stb && r.we && r.sel % 16 == 15 ==> Answer(mem, r) == Slot(true, r.data)
    ensures !(r.cyc && r.stb) ==> !Answer(mem, r).ack && Stored(mem, r) == mem
  {
    AllBytes(mem[r.addr % |mem|], r.data, r.sel);
  }

  // ---------------------------------------------------------------------------------------------
  // The ring

  class MemSim {
    const delay: nat
    const mem: array<Word>
    const fifoAck: array<bool>
    const fifoData: array<Word>
    var head: nat

    ghost var start: seq<Word>     // the memory at the start
    ghost var before: seq<Slot>    // what was in the ring at the start
    ghost var asked: seq<Request>  // every request so far

    ghost predicate Sizes()
      reads this
    {
      && 1 <= delay <= fifoAck.Length && fifoData.Length == fifoAck.Length && head < fifoAck.Length
      && mem.Length > 0 && mem != fifoData && |start| == mem.Length && |before| == delay
    }

    ghost function Ring(): (r: seq<Slot>)
      requires fifoData.Length == fifoAck.Length
      reads fifoAck, fifoData
      ensures |r| == fifoAck.Length
    {
      seq(fifoAck.Length, p requires 0 <= p < fifoAck.Length reads fifoAck, fifoData => Slot(fifoAck[p], fifoData[p]))
    }

    /** The ring holds the queue: all answers that have not come out yet, in order. */
    ghost predicate Valid()
      reads this, mem, fifoAck, fifoData
    {
      && Sizes() && mem[..] == MemAfter(start, asked)
      && Holds(Ring(), head, delay, before + Answers(start, asked), |asked|)
    }

    /** Both sizes are rounded up to powers of two. */
    constructor (nwords: nat, delay: nat)
      requires delay >= 1
      ensures Valid() && asked == [] && this.delay == delay && fresh(mem) && fresh(fifoAck) && fresh(fifoData)
      ensures forall s <- before :: !s.ack
      ensures mem.Length >= nwords && exists k: nat :: mem.Length == Pow2(k)
    {
      var len, _ := RoundUp(nwords);
      var ring, _ := RoundUp(delay);
      this.delay := delay;
      mem := new Word[len](_ => Zero);
      fifoAck := new bool[ring](_ => false);
      fifoData := new Word[ring](_ => Zero);
      head := 0;
      asked := [];
      new;
      start := mem[..];
      before := seq(delay, _ => Slot(false, Zero));
      assert before + Answers(start, []) == before;
    }

    /** One tick: the slot that has waited long enough comes out, and the new request goes in. */
    method Apply(r: Request) returns (out: Slot)
      requires Valid()
      modifies this, mem, fifoAck, fifoData
      ensures Valid() && asked == old(asked) + [r] && start == old(start) && before == old(before)
      ensures out == (before + Answers(start, old(asked)))[|old(asked)|]
    {
      ghost var slots, was := Ring(), head;
      FirstOut();
      out := Exchange(r);
      StillHolds(slots, was, r);
      asked := asked + [r];
    }

    /** The slot at the tail is the first of the queue. */
    lemma FirstOut()
      requires Valid()
      ensures var p := Place(head, fifoAck.Length, delay, 0);
              p < fifoAck.Length && Ring()[p] == (before + Answers(start, asked))[|asked|]
    {
      var queue, n := before + Answers(start, asked), |asked|;
      assert Holds(Ring(), head, delay, queue, n);
      assert Ring()[Place(head, fifoAck.Length, delay, 0)] == queue[n + 0];
    }

    method Exchange(r: Request) returns (out: Slot)
      requires Sizes()
      modifies this`head, mem, fifoAck, fifoData
      ensures Sizes() && head == Wrap(old(head) + 1, fifoAck.Length)
      ensures Place(old(head), fifoAck.Length, delay, 0) < fifoAck.Length
      ensures out == old(Ring())[Place(old(head), fifoAck.Length, delay, 0)]
      ensures mem[..] == Stored(old(mem[..]), r) && Ring() == old(Ring())[head := Answer(old(mem[..]), r)]
    {
      out := Take();
      Enter(r);
    }

    /** After an exchange the ring holds the longer queue. */
    lemma StillHolds(slots: seq<Slot>, was: nat, r: Request)
      requires Sizes() && |slots| == fifoAck.Length && was < |slots| && head == Wrap(was + 1, |slots|)
      requires Holds(slots, was, delay, before + Answers(start, asked), |asked|)
      requires Ring() == slots[head := Answer(MemAfter(start, asked), r)] && mem[..] == Stored(MemAfter(start, asked), r)
      ensures mem[..] == MemAfter(start, asked + [r])
      ensures Holds(Ring(), head, delay, before + Answers(start, asked + [r]), |asked + [r]|)
    {
      QueueOn(before, start, asked, r);
      HoldsOn(slots, was, delay, before + Answers(start, asked), |asked|, Answer(MemAfter(start, asked), r));
    }

    /** Move the head, and look at the tail. */
    method Take() returns (out: Slot)
      requires Sizes()
      modifies this`head
      ensures head == Wrap(old(head) + 1, fifoAck.Length) < fifoAck.Length
      ensures Place(old(head), fifoAck.Length, delay, 0) < fifoAck.Length
      ensures out == Ring()[Place(old(head), fifoAck.Length, delay, 0)]
    {
      var ring := fifoAck.Length;
      Wraps(head + 1 + ring - delay, ring);
      Wraps(head + 1, ring);
      var next := head + 1;
      var tail := (next + ring - delay) % ring;
      head := next % ring;
      out := Slot(fifoAck[tail], fifoData[tail]);
    }

    /** Carry a request out, and put its answer at the head. */
    method Enter(r: Request)
      requires Sizes()
      modifies mem, fifoAck, fifoData
      ensures mem[..] == Stored(old(mem[..]), r) && Ring() == old(Ring())[head := Answer(old(mem[..]), r)]
    {
      fifoAck[head] := false;
      fifoData[head] := Zero;
      if r.cyc && r.stb {
        var a := r.addr % mem.Length;
        if r.we {
          mem[a] := Masked(mem[a], r.data, Selected(r.sel));
        }
        fifoAck[head] := true;
        fifoData[head] := mem[a];
      }
    }
  }

  /** Around the ring, for numbers up to three times its size. */
  function Wrap(n: nat, ring: nat): nat {
    if n < ring then n else if n < 2 * ring then n - ring else n - 2 * ring
  }

  lemma Wraps(n: nat, ring: nat)
    requires 0 < ring && n < 3 * ring
    ensures n % ring == Wrap(n, ring)
  {
    DivModUnique(n, ring, if n < ring then 0 else if n < 2 * ring then 1 else 2, Wrap(n, ring));
  }

  /** The place in the ring of the slot that will come out i ticks after the next. */
  function Place(head: nat, ring: nat, delay: nat, i: nat): nat
    requires delay <= ring
  {
    Wrap(head + 1 + ring - delay + i, ring)
  }

  /** A ring whose head is here holds a queue from its n-th element on. */
  ghost predicate Holds(slots: seq<Slot>, head: nat, delay: nat, queue: seq<Slot>, n: nat) {
    && 1 <= delay <= |slots| && head < |slots| && |queue| == delay + n
    && forall i :: 0 <= i < delay ==> Place(head, |slots|, delay, i) < |slots| && slots[Place(head, |slots|, delay, i)] == queue[n + i]
  }

  /** Taking one out and putting one in moves the ring as it moves the queue, even when the queue fills the
      whole ring and the slot taken out is the one overwritten. */
  lemma HoldsOn(slots: seq<Slot>, head: nat, delay: nat, queue: seq<Slot>, n: nat, slot: Slot)
    requires Holds(slots, head, delay, queue, n)
    ensures var head' := Wrap(head + 1, |slots|);
            head' < |slots| && Holds(slots[head' := slot], head', delay, queue + [slot], n + 1)
  {
    var ring, head' := |slots|, Wrap(head + 1, |slots|);
    forall i | 0 <= i < delay
      ensures Place(head', ring, delay, i) < ring
      ensures slots[head' := slot][Place(head', ring, delay, i)] == (queue + [slot])[n + 1 + i]
    {
      if i < delay - 1 {
        assert Place(head, ring, delay, i + 1) == Place(head', ring, delay, i) != head';
        assert slots[Place(head, ring, delay, i + 1)] == queue[n + (i + 1)];
      }
    }
  }

  method RoundUp(n: nat) returns (p: nat, ghost k: nat)
    ensures p >= n && p == Pow2(k)
  {
    p, k := 1, 0;
    while p < n
      invariant p == Pow2(k)
      decreases n - p
    {
      p, k := 2 * p, k + 1;
    }
  }

  lemma QueueOn(before: seq<Slot>, mem: seq<Word>, rs: seq<Request>, r: Request)
    requires mem != []
    ensures before + Answers(mem, rs + [r]) == before + Answers(mem, rs) + [Answer(MemAfter(mem, rs), r)]
    ensures MemAfter(mem, rs + [r]) == Stored(MemAfter(mem, rs), r)
  {
    Extended(mem, rs, r);
  }

  lemma Extended(mem: seq<Word>, rs: seq<Request>, r: Request)
    requires mem != []
    ensures Answers(mem, rs + [r]) == Answers(mem, rs) + [Answer(MemAfter(mem, rs), r)]
    ensures MemAfter(mem, rs + [r]) == Stored(MemAfter(mem, rs), r)
  {
    assert (rs + [r])[..|rs|] == rs;
  }

  /** Seen from outside: the answer to the k-th request comes out exactly `delay` ticks after it, once and
      in order, with the word a plain memory holds right after that request; before that, nothing. */
  method Serve(m: MemSim, rs: seq<Request>) returns (outs: seq<Slot>)
    requires m.Valid() && m.asked == [] && forall s <- m.before :: !s.ack
    modifies m, m.mem, m.fifoAck, m.fifoData
    ensures |outs| == |rs|
    ensures forall t :: 0 <= t < |rs| && t < m.delay ==> !outs[t].ack
    ensures forall k :: 0 <= k < |rs| - m.delay ==>
              outs[k + m.delay] == Answer(MemAfter(old(m.mem[..]), rs[..k]), rs[k])
  {
    outs := [];
    ghost var q := m.before;
    ghost var mem := m.start;
    for t := 0 to |rs|
      invariant m.Valid() && m.asked == rs[..t] && m.start == mem && m.before == q && |outs| == t
      invariant forall u :: 0 <= u < t ==> outs[u] == (q + Answers(mem, rs))[u]
    {
      var out := m.Apply(rs[t]);
      AnswersPrefix(mem, rs, t);
      assert rs[..t] + [rs[t]] == rs[..t + 1];
      outs := outs + [out];
    }
    forall k | 0 <= k < |rs| - m.delay ensures outs[k + m.delay] == Answer(MemAfter(mem, rs[..k]), rs[k]) {
      AnswerAt(mem, rs, k);
      assert outs[k + m.delay] == (q + Answers(mem, rs))[k + m.delay];
    }
  }

  lemma {:induction false} AnswersPrefix(mem: seq<Word>, rs: seq<Request>, t: nat)
    requires mem != [] && t <= |rs|
    ensures Answers(mem, rs[..t]) == Answers(mem, rs)[..t]
  {
    if t == |rs| {
      assert rs[..t] == rs;
    } else {
      AnswersPrefix(mem, rs[..|rs| - 1], t);
      assert rs[..|rs| - 1][..t] == rs[..t];
    }
  }

  lemma AnswerAt(mem: seq<Word>, rs: seq<Request>, k: nat)
    requires mem != [] && k < |rs|
    ensures Answers(mem, rs)[k] == Answer(MemAfter(mem, rs[..k]), rs[k])
  {
    AnswersPrefix(mem, rs, k + 1);
    assert rs[..k + 1][..k] == rs[..k];
  }
}
